/** Scalars of the index parsers: JSON strings between quotes, and raw text. */
module IndexScalars {
  import opened Text
  import opened DocIndex
  import Json
  import Envelope

  predicate LooksQuoted(v: string) { |v| >= 2 && v[0] == '"' && v[|v| - 1] == '"' }

  /** `_scalar`: a quoted value is decoded when it can be, everything else is its own text. */
  ghost function Scalar(value: string): Envelope.PyStr {
    var v := Strip(value);
    if LooksQuoted(v) then
      match Envelope.Loads(v)
      case Some(VStr(s)) => s
      case _ => Envelope.CodePoints(v)
    else Envelope.CodePoints(v)
  }

  /** A text of RFC 8259 for a string. Not every text that looks quoted is one. */
  ghost predicate IsJsonString(v: string) { exists chars :: Json.WfChars(chars) && Json.PrintStr(chars) == v }

  lemma QuotedReads(chars: seq<Json.StrChar>)
    requires Json.WfChars(chars)
    ensures Scalar(Json.PrintStr(chars)) == Envelope.Decode(chars)
    ensures Stripped(Json.PrintStr(chars))
  {
    assert var t := "\"" + (Json.PrintChars(chars) + "\""); LooksQuoted(t) && Stripped(t);
    Envelope.LoadsInvertsPrint(Json.JString(chars));
    StrippedIsFixed(Json.PrintStr(chars));
  }

  lemma MeansString(j: Json.Json)
    ensures Envelope.Meaning(j).VStr? <==> j.JString?
  {
    match j
    case JNumber(text) => assert !Envelope.NumberMeaning(text).VStr?;
    case _ =>
  }

  /** Only a string's text decodes to a string. */
  lemma StringLoads(v: string, t: Envelope.PyStr)
    requires Envelope.Loads(v) == Json.Some(Envelope.VStr(t))
    ensures IsJsonString(v)
  {
    var j :| Envelope.IsText(v, j) && Envelope.Meaning(j) == Envelope.VStr(t);
    MeansString(j);
    assert Json.PrintStr(j.chars) == v;
  }

  lemma RawReads(v: string)
    requires Stripped(v) && !IsJsonString(v)
    ensures Scalar(v) == Envelope.CodePoints(v)
  {
    StrippedIsFixed(v);
    match Envelope.Loads(v)
    case Some(VStr(t)) => StringLoads(v, t);
    case _ =>
  }

  lemma StripTwice(s: string)
    ensures Scalar(s) == Scalar(Strip(s)) && Stripped(Strip(s))
  {
    TrimIdempotent(IsSpace, s);
    StrippedIsFixed(s);
  }

  /** What every value reads as: a JSON string in blanks as its decoded characters, everything else, also
      what only looks quoted, as its own text without the blanks. */
  lemma ScalarExact(value: string)
    ensures forall chars | Json.WfChars(chars) && Json.PrintStr(chars) == Strip(value) ::
              Scalar(value) == Envelope.Decode(chars)
    ensures !IsJsonString(Strip(value)) ==> Scalar(value) == Envelope.CodePoints(Strip(value))
  {
    StripTwice(value);
    forall chars | Json.WfChars(chars) && Json.PrintStr(chars) == Strip(value)
      ensures Scalar(value) == Envelope.Decode(chars)
    {
      QuotedReads(chars);
    }
    if !IsJsonString(Strip(value)) { RawReads(Strip(value)); }
  }

  // ---- which texts read as themselves ----

  lemma {:induction false} DecodeNoLonger(xs: seq<Json.StrChar>)
    ensures |Envelope.Decode(xs)| <= |Json.PrintChars(xs)|
    decreases |xs|
  {
    if xs != [] {
      DecodeNoLonger(xs[1..]);
      if Envelope.IsPair(xs) {
        assert xs[1..][1..] == xs[2..];
        DecodeNoLonger(xs[2..]);
      }
    }
  }

  lemma ShorterThanText(value: string)
    ensures |Scalar(value)| <= |Strip(value)|
    ensures IsJsonString(Strip(value)) ==> |Scalar(value)| < |Strip(value)|
  {
    ScalarExact(value);
    if IsJsonString(Strip(value)) {
      var chars :| Json.WfChars(chars) && Json.PrintStr(chars) == Strip(value);
      DecodeNoLonger(chars);
    }
  }

  /** A value reads as itself exactly when nothing is to be stripped and it is not the text of a string. */
  lemma ReadsItself(s: string)
    ensures Scalar(s) == Envelope.CodePoints(s) <==> Stripped(s) && !IsJsonString(s)
  {
    StrippedIsFixed(s);
    ShorterThanText(s);
    ScalarExact(s);
    if Scalar(s) == Envelope.CodePoints(s) {
      assert |Strip(s)| >= |s|;
      assert Strip(s) == s by { StripNoLonger(s); }
    }
  }

  lemma StripNoLonger(s: string)
    ensures |Strip(s)| <= |s| && (|Strip(s)| == |s| ==> Strip(s) == s)
  {
    TrimRightEnds(IsSpace, TrimLeft(IsSpace, s));
  }

  // ---- entries given as values ----

  /** The two ways of writing a value: between quotes, or as it is. */
  datatype Written = Quoted(chars: seq<Json.StrChar>) | Raw(text: string)

  ghost predicate WfWritten(w: Written) {
    match w
    case Quoted(chars) => Json.WfChars(chars)
    case Raw(text) => Stripped(text) && !IsJsonString(text)
  }

  function Shown(w: Written): string { if w.Quoted? then Json.PrintStr(w.chars) else w.text }

  function Value(w: Written): Envelope.PyStr {
    if w.Quoted? then Envelope.Decode(w.chars) else Envelope.CodePoints(w.text)
  }

  datatype Item = Item(name: Written, fields: seq<(string, Written)>)

  ghost predicate WfFields(fields: seq<(string, Written)>) {
    forall f | f in fields :: Stripped(f.0) && ':' !in f.0 && WfWritten(f.1)
  }

  ghost predicate WfItem(i: Item) { WfWritten(i.name) && WfFields(i.fields) }

  function FieldTexts(fields: seq<(string, Written)>): seq<(string, string)> {
    if fields == [] then [] else [(fields[0].0, Shown(fields[0].1))] + FieldTexts(fields[1..])
  }

  function Sources(items: seq<Item>): seq<Source> {
    if items == [] then [] else [Source(Shown(items[0].name), FieldTexts(items[0].fields))] + Sources(items[1..])
  }

  /** The values of an item, a later field of the same key taking the place of an earlier one. */
  function FieldValues(fields: seq<(string, Written)>, m: Entry<Envelope.PyStr>): Entry<Envelope.PyStr> {
    if fields == [] then m else FieldValues(fields[1..], m[fields[0].0 := Value(fields[0].1)])
  }

  function Values(items: seq<Item>): seq<Entry<Envelope.PyStr>> {
    if items == [] then [] else
      [FieldValues(items[0].fields, map["name" := Value(items[0].name)])] + Values(items[1..])
  }

  lemma WrittenReads(w: Written)
    requires WfWritten(w)
    ensures Scalar(Shown(w)) == Value(w) && Stripped(Shown(w))
  {
    if w.Quoted? {
      QuotedReads(w.chars);
    } else {
      RawReads(w.text);
    }
  }

  lemma {:induction false} FieldsRead(fields: seq<(string, Written)>, m: Entry<Envelope.PyStr>)
    requires WfFields(fields)
    ensures FieldMap(Scalar, FieldTexts(fields), m) == FieldValues(fields, m)
    ensures forall f | f in FieldTexts(fields) :: GoodField(f)
    decreases |fields|
  {
    if fields != [] {
      var f := fields[0];
      assert f in fields && forall x | x in fields[1..] :: x in fields;
      WrittenReads(f.1);
      assert FieldTexts(fields)[1..] == FieldTexts(fields[1..]);
      FieldsRead(fields[1..], m[f.0 := Value(f.1)]);
    }
  }

  lemma {:induction false} ItemsRead(items: seq<Item>)
    requires forall i | i in items :: WfItem(i)
    ensures Meant(Scalar, Sources(items)) == Values(items)
    ensures forall e | e in Sources(items) :: GoodSource(e)
    decreases |items|
  {
    if items != [] {
      var i := items[0];
      assert WfItem(i) && forall x | x in items[1..] :: x in items;
      WrittenReads(i.name);
      FieldsRead(i.fields, map["name" := Value(i.name)]);
      assert Sources(items)[1..] == Sources(items[1..]);
      ItemsRead(items[1..]);
    }
  }

  /** The round trip of a named list with its own scalar reader: entries written with quoted or raw
      scalars are read back to their values, key by key. */
  lemma IndexRoundTrip(key: string, before: seq<string>, items: seq<Item>)
    requires key != "" && key[0] != ' '
    requires (forall ln | ln in before :: !IsHeader(key, ln)) && forall i | i in items :: WfItem(i)
    ensures NamedList(Scalar, key, before + ([key + ":"] + EntryLines(Sources(items)))) == Some(Values(items))
  {
    forall s ensures Scalar(s) == Scalar(Strip(s)) { StripTwice(s); }
    ItemsRead(items);
    NamedListRoundTrip(Scalar, key, before, Sources(items));
  }

  // ---- every text can be written ----

  function HexOf(n: nat): char
    requires n < 16
  {
    if n < 10 then n as char + '0' else (n - 10) as char + 'a'
  }

  function QuoteChar(c: char): Json.StrChar {
    if c < ' ' then Json.Hex(['0', '0', HexOf(c as nat / 16), HexOf(c as nat % 16)])
    else if c == '"' || c == '\\' then Json.Short(c)
    else Json.Unescaped(c)
  }

  function Quote(s: string): seq<Json.StrChar> {
    if s == "" then [] else [QuoteChar(s[0])] + Quote(s[1..])
  }

  lemma HexOfIs(n: nat)
    requires n < 16
    ensures Json.IsHexDigit(HexOf(n)) && Envelope.HexDigit(HexOf(n)) == n
  {}

  lemma QuoteCharIs(c: char)
    ensures Json.WfStrChar(QuoteChar(c)) && Envelope.CodeUnit(QuoteChar(c)) == c as nat
    ensures QuoteChar(c).Hex? ==> Envelope.CodeUnit(QuoteChar(c)) < 32
  {
    if c < ' ' {
      HexOfIs(0);
      HexOfIs(c as nat / 16);
      HexOfIs(c as nat % 16);
    }
  }

  lemma {:induction false} QuoteExact(s: string)
    ensures Json.WfChars(Quote(s)) && Envelope.Decode(Quote(s)) == Envelope.CodePoints(s)
    decreases |s|
  {
    if s != "" {
      QuoteExact(s[1..]);
      QuoteCharIs(s[0]);
      assert Quote(s)[1..] == Quote(s[1..]);
      assert Envelope.CodePoints(s) == [s[0] as nat] + Envelope.CodePoints(s[1..]);
      assert !Envelope.IsPair(Quote(s));
    }
  }

  /** Every string has a quoted writing that reads as it, and is its own writing exactly when it has no
      outer blanks and is not the text of a JSON string. */
  lemma EveryTextReads(s: string)
    ensures Scalar(Json.PrintStr(Quote(s))) == Envelope.CodePoints(s)
    ensures Scalar(s) == Envelope.CodePoints(s) <==> Stripped(s) && !IsJsonString(s)
  {
    QuoteExact(s);
    QuotedReads(Quote(s));
    ReadsItself(s);
  }

  /** A text that looks quoted and is no string: it reads as itself, quotes included. */
  lemma LooksAreNotEnough()
    ensures var v := "\"a\"b\""; LooksQuoted(v) && !IsJsonString(v) && Scalar(v) == Envelope.CodePoints(v)
  {
    var v := "\"a\"b\"";
    forall chars | Json.WfChars(chars) ensures Json.PrintStr(chars) != v { InnerQuote(chars); }
    RawReads(v);
  }

  /** In a string's text a character other than a backslash stands for itself, and is no quote. */
  lemma FirstPlain(chars: seq<Json.StrChar>, t: string)
    requires Json.WfChars(chars) && Json.PrintChars(chars) == t && t != "" && t[0] != '\\'
    ensures chars != [] && t[0] != '"' && Json.PrintChars(chars[1..]) == t[1..]
  {
    var x := chars[0];
    assert x in chars && Json.WfStrChar(x);
    assert t[0] == Json.PrintStrChar(x)[0];
    assert x.Unescaped? && (Json.PrintStrChar(x) + Json.PrintChars(chars[1..]))[1..] == Json.PrintChars(chars[1..]);
  }

  lemma InnerQuote(chars: seq<Json.StrChar>)
    requires Json.WfChars(chars)
    ensures Json.PrintStr(chars) != "\"a\"b\""
  {
    var inner := Json.PrintChars(chars);
    assert ("\"" + (inner + "\""))[1..|inner| + 1] == inner;
    if Json.PrintStr(chars) == "\"a\"b\"" {
      FirstPlain(chars, "a\"b");
      FirstPlain(chars[1..], "\"b");
    }
  }
}
