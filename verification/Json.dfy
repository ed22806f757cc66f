/** JSON texts as RFC 8259 defines them: every choice the grammar leaves open (white space in
    section 2, number forms in section 6, escapes in section 7) is kept in the tree, so that
    `Print` reaches every text of the grammar and `Meaning` is what a reader makes of it. */
module Json {

  datatype Option<+T> = None | Some(value: T)

  // ---- characters and strings (sections 2, 6 and 7) ----

  predicate IsWs(s: string) {
    forall c | c in s :: c in [' ', '\t', '\n', '\r']
  }

  predicate IsDigit(c: char) { '0' <= c <= '9' }

  predicate IsHexDigit(c: char) {
    IsDigit(c) || 'a' <= c <= 'f' || 'A' <= c <= 'F'
  }

  datatype StrChar = Unescaped(c: char) | Short(c: char) | Hex(h: string)

  predicate WfStrChar(x: StrChar) {
    match x
    case Unescaped(c) => ' ' <= c && c != '"' && c != '\\'
    case Short(c) => c in ['"', '\\', '/', 'b', 'f', 'n', 'r', 't']
    case Hex(h) => |h| == 4 && forall c | c in h :: IsHexDigit(c)
  }

  predicate WfChars(xs: seq<StrChar>) {
    forall x | x in xs :: WfStrChar(x)
  }

  function PrintStrChar(x: StrChar): string {
    match x
    case Unescaped(c) => [c]
    case Short(c) => ['\\', c]
    case Hex(h) => "\\u" + h
  }

  function PrintChars(xs: seq<StrChar>): string {
    if xs == [] then "" else PrintStrChar(xs[0]) + PrintChars(xs[1..])
  }

  function PrintStr(xs: seq<StrChar>): string {
    "\"" + (PrintChars(xs) + "\"")
  }

  datatype Number = Number(minus: bool, whole: string, frac: string, exp: string)

  predicate IsDigits(s: string) {
    s != "" && forall c | c in s :: IsDigit(c)
  }

  predicate WfNumber(n: Number) {
    && IsDigits(n.whole) && (n.whole[0] == '0' ==> |n.whole| == 1)
    && (n.frac == "" || (n.frac[0] == '.' && IsDigits(n.frac[1..])))
    && (n.exp == "" || (n.exp[0] in ['e', 'E'] &&
                        (IsDigits(n.exp[1..]) || (|n.exp| > 2 && n.exp[1] in ['+', '-'] && IsDigits(n.exp[2..])))))
  }

  function PrintNumber(n: Number): string {
    (if n.minus then "-" else "") + n.whole + n.frac + n.exp
  }

  ghost predicate IsNumber(text: string) {
    exists n :: WfNumber(n) && PrintNumber(n) == text
  }

  predicate IsNumberChar(c: char) {
    IsDigit(c) || c in ['-', '+', '.', 'e', 'E']
  }

  // ---- values (sections 3, 4 and 5) ----

  datatype Json =
    | JNull | JTrue | JFalse
    | JNumber(text: string)
    | JString(chars: seq<StrChar>)
    | JArray(items: Items)
    | JObject(members: Members)

  datatype Items =
    | NoItems(pad: string)
    | LastItem(lead: string, item: Json, trail: string)
    | MoreItems(lead: string, item: Json, trail: string, rest: Items)

  datatype Member = Member(lead: string, key: seq<StrChar>, beforeColon: string, afterColon: string, value: Json,
    trail: string)

  datatype Members =
    | NoMembers(pad: string)
    | LastMember(m: Member)
    | MoreMembers(m: Member, rest: Members)

  ghost predicate Wf(j: Json) {
    match j
    case JNumber(text) => IsNumber(text)
    case JString(chars) => WfChars(chars)
    case JArray(items) => WfItems(items)
    case JObject(members) => WfMembers(members)
    case _ => true
  }

  ghost predicate WfItems(items: Items) {
    match items
    case NoItems(pad) => IsWs(pad)
    case LastItem(lead, v, trail) => IsWs(lead) && Wf(v) && IsWs(trail)
    case MoreItems(lead, v, trail, rest) => IsWs(lead) && Wf(v) && IsWs(trail) && !rest.NoItems? && WfItems(rest)
  }

  ghost predicate WfMember(m: Member) {
    IsWs(m.lead) && WfChars(m.key) && IsWs(m.beforeColon) && IsWs(m.afterColon) && Wf(m.value) && IsWs(m.trail)
  }

  ghost predicate WfMembers(members: Members) {
    match members
    case NoMembers(pad) => IsWs(pad)
    case LastMember(m) => WfMember(m)
    case MoreMembers(m, rest) => WfMember(m) && !rest.NoMembers? && WfMembers(rest)
  }

  function Print(j: Json): string {
    match j
    case JNull => "null"
    case JTrue => "true"
    case JFalse => "false"
    case JNumber(text) => text
    case JString(chars) => PrintStr(chars)
    case JArray(items) => "[" + (PrintItems(items) + "]")
    case JObject(members) => "{" + (PrintMembers(members) + "}")
  }

  function PrintItems(items: Items): string {
    match items
    case NoItems(pad) => pad
    case LastItem(lead, v, trail) => lead + (Print(v) + trail)
    case MoreItems(lead, v, trail, rest) => lead + (Print(v) + (trail + ("," + PrintItems(rest))))
  }

  function PrintMember(m: Member): string {
    m.lead + (PrintStr(m.key) + (m.beforeColon + (":" + (m.afterColon + (Print(m.value) + m.trail)))))
  }

  function PrintMembers(members: Members): string {
    match members
    case NoMembers(pad) => pad
    case LastMember(m) => PrintMember(m)
    case MoreMembers(m, rest) => PrintMember(m) + ("," + PrintMembers(rest))
  }
}
