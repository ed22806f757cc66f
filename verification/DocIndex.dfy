/** The line-level index parsers: pins of a `files:` block, and the entries of a named list. */
module DocIndex {
  import opened Text

  datatype Option<+T> = None | Some(value: T)

  // ---- partition at a colon ----

  function FirstColon(s: string): (i: nat)
    ensures i <= |s| && (i < |s| ==> s[i] == ':') && ':' !in s[..i]
  {
    if s == "" || s[0] == ':' then 0 else
      var i := 1 + FirstColon(s[1..]);
      assert s[..i] == [s[0]] + s[1..][..i - 1];
      i
  }

  /** Index of the last colon plus one, 0 when there is none. */
  function AfterLastColon(s: string): (i: nat)
    ensures i <= |s| && (i > 0 ==> s[i - 1] == ':') && ':' !in s[i..]
  {
    if s == "" || s[|s| - 1] == ':' then |s| else
      var i := AfterLastColon(s[..|s| - 1]);
      assert s[i..] == s[..|s| - 1][i..] + [s[|s| - 1]];
      i
  }

  // ---- _parse_pins ----

  predicate IsFilesHeader(ln: string) { Strip(ln) == "files:" }

  predicate IsPinLine(ln: string) { "  " <= ln && ':' in ln }

  /** `strip().rpartition(":")`, both sides stripped. */
  function PinOf(ln: string): (string, string) {
    var s := Strip(ln);
    var i := AfterLastColon(s);
    if i == 0 then ("", s) else (Strip(s[..i - 1]), Strip(s[i..]))
  }

  datatype Pins = Pins(pins: map<string, string>, inFiles: bool)

  function PinStep(st: Pins, ln: string): Pins {
    if IsFilesHeader(ln) then st.(inFiles := true)
    else if !st.inFiles then st
    else if IsPinLine(ln) then st.(pins := st.pins[PinOf(ln).0 := PinOf(ln).1])
    else st.(inFiles := false)
  }

  function PinFold(st: Pins, lines: seq<string>): Pins
    decreases |lines|
  {
    if lines == [] then st else PinFold(PinStep(st, lines[0]), lines[1..])
  }

  method ParsePins(lines: seq<string>) returns (pins: map<string, string>)
    ensures pins == PinFold(Pins(map[], false), lines).pins
  {
    pins := map[];
    var inFiles := false;
    assert lines[0..] == lines;
    for i := 0 to |lines|
      invariant PinFold(Pins(map[], false), lines) == PinFold(Pins(pins, inFiles), lines[i..])
    {
      var ln := lines[i];
      assert lines[i..][0] == ln && lines[i..][1..] == lines[i + 1..];
      if IsFilesHeader(ln) {
        inFiles := true;
        continue;
      }
      if inFiles {
        if IsPinLine(ln) {
          pins := pins[PinOf(ln).0 := PinOf(ln).1];
        } else {
          inFiles := false;
        }
      }
    }
  }

  predicate Stripped(s: string) { s == "" || (!IsSpace(s[0]) && !IsSpace(s[|s| - 1])) }

  lemma StrippedIsFixed(s: string)
    ensures Stripped(Strip(s)) && (Stripped(s) ==> Strip(s) == s)
  {
    var l := TrimLeft(IsSpace, s);
    TrimRightEnds(IsSpace, l);
    if Strip(s) != "" { assert Strip(s)[0] == l[0]; }
    if s != "" && Stripped(s) { TrimNothing(IsSpace, s); }
  }

  function PinLine(path: string, sha: string): string { "  " + (path + (": " + sha)) }

  /** What a printed pin reads as once its line is stripped: a blank digest takes its space along. */
  lemma PinLineStripped(path: string, sha: string)
    requires Stripped(path) && Stripped(sha)
    ensures Strip(PinLine(path, sha)) == path + (if sha == "" then ":" else ": " + sha)
  {
    var s := path + (if sha == "" then ":" else ": " + sha);
    var b := if sha == "" then " " else "";
    assert All(IsSpace, "  ") && All(IsSpace, b);
    assert PinLine(path, sha) == "  " + (s + b);
    RunIs(IsSpace, "  ", s + b);
    TrimRightIs(IsSpace, s, b);
  }

  lemma {:induction false} LastColonAt(a: string, b: string)
    requires ':' !in b
    ensures AfterLastColon(a + (":" + b)) == |a| + 1
    decreases |b|
  {
    var s := a + (":" + b);
    if b != "" {
      assert b[|b| - 1] in b && forall x | x in b[..|b| - 1] :: x in b;
      assert s[..|s| - 1] == a + (":" + b[..|b| - 1]);
      LastColonAt(a, b[..|b| - 1]);
    }
  }

  lemma ColonForm(path: string, sha: string)
    ensures path + (if sha == "" then ":" else ": " + sha) == path + (":" + if sha == "" then "" else " " + sha)
  {
    if sha != "" { assert ": " + sha == ":" + (" " + sha); }
  }

  lemma GoodDigestReads(path: string, sha: string)
    requires Stripped(path) && Stripped(sha) && ':' !in sha
    ensures PinOf(PinLine(path, sha)) == (path, sha)
  {
    PinLineStripped(path, sha);
    var tail := if sha == "" then "" else " " + sha;
    ColonForm(path, sha);
    LastColonAt(path, tail);
    PinSplits(PinLine(path, sha), path, tail);
    StrippedIsFixed(path);
    StripTail(sha);
  }

  lemma PinSplits(ln: string, a: string, b: string)
    requires Strip(ln) == a + (":" + b) && AfterLastColon(Strip(ln)) == |a| + 1
    ensures PinOf(ln) == (Strip(a), Strip(b))
  {
    CutAt(a, b);
  }

  lemma PrintedHeader(path: string, sha: string)
    requires Stripped(path) && Stripped(sha)
    ensures IsFilesHeader(PinLine(path, sha)) <==> path == "files" && sha == ""
    ensures IsPinLine(PinLine(path, sha))
  {
    var tail := if sha == "" then "" else " " + sha;
    PinLineStripped(path, sha);
    ColonForm(path, sha);
    assert "  " <= PinLine(path, sha) && ':' in PinLine(path, sha) by {
      assert PinLine(path, sha)[2 + |path|] == ':';
    }
    if path + (":" + tail) == "files:" { HeaderIsBare(path, tail); }
  }

  /** A stripped pair is printed and read back unchanged exactly when its digest has no colon; and the
      printed line is mistaken for the header in one case only. */
  lemma PinRoundTrip(path: string, sha: string)
    requires Stripped(path) && Stripped(sha)
    ensures PinOf(PinLine(path, sha)) == (path, sha) <==> ':' !in sha
    ensures IsFilesHeader(PinLine(path, sha)) <==> path == "files" && sha == ""
    ensures IsPinLine(PinLine(path, sha))
  {
    PrintedHeader(path, sha);
    if ':' !in sha {
      GoodDigestReads(path, sha);
    } else {
      BadDigestReads(path, sha);
    }
  }

  lemma BadDigestReads(path: string, sha: string)
    requires Stripped(path) && Stripped(sha) && ':' in sha
    ensures PinOf(PinLine(path, sha)) != (path, sha)
  {
    PinLineStripped(path, sha);
    ColonForm(path, sha);
    ColonInDigest(path, sha, Strip(PinLine(path, sha)));
  }

  lemma HeaderIsBare(path: string, tail: string)
    requires path + (":" + tail) == "files:"
    ensures path == "files" && tail == ""
  {
    assert (path + (":" + tail))[|path|] == ':';
    assert forall i | 0 <= i < 5 :: "files:"[i] != ':';
    assert |path| == 5;
    assert path == "files:"[..5];
  }

  lemma StripTail(sha: string)
    requires Stripped(sha)
    ensures Strip(if sha == "" then "" else " " + sha) == sha
  {
    if sha != "" {
      assert All(IsSpace, " ");
      RunIs(IsSpace, " ", sha);
      assert TrimLeft(IsSpace, " " + sha) == sha;
    }
  }

  lemma ColonInDigest(path: string, sha: string, s: string)
    requires Stripped(path) && ':' in sha && s == path + (":" + (" " + sha))
    requires Strip(PinLine(path, sha)) == s
    ensures PinOf(PinLine(path, sha)).0 != path
  {
    LastColonIsLate(path, sha, s);
    FrontIsOther(PinLine(path, sha), path);
  }

  /** A last colon past `path:` leaves more than the path in front of it. */
  lemma FrontIsOther(ln: string, path: string)
    requires Stripped(path) && AfterLastColon(Strip(ln)) > |path| + 1
    requires path <= Strip(ln) && Strip(ln)[|path|] == ':'
    ensures PinOf(ln).0 != path
  {
    var s := Strip(ln);
    var front := s[..AfterLastColon(s) - 1];
    assert front[..|path|] == s[..|path|];
    LongerThan(path, front);
  }

  lemma {:induction false} ColonBefore(s: string, k: nat)
    requires k < |s| && s[k] == ':'
    ensures AfterLastColon(s) > k
    decreases |s|
  {
    if s[|s| - 1] != ':' { ColonBefore(s[..|s| - 1], k); }
  }

  lemma CutAt(a: string, b: string)
    ensures var s := a + (":" + b); s[..|a|] == a && s[|a|] == ':' && s[|a| + 1..] == b
  {}

  lemma LastColonIsLate(path: string, sha: string, s: string)
    requires ':' in sha && s == path + (":" + (" " + sha))
    ensures AfterLastColon(s) > |path| + 1 && path <= s && s[|path|] == ':'
  {
    var k :| 0 <= k < |sha| && sha[k] == ':';
    assert s[|path| + 2 + k] == ':';
    ColonBefore(s, |path| + 2 + k);
    CutAt(path, " " + sha);
  }

  lemma LongerThan(path: string, front: string)
    requires Stripped(path) && |path| < |front| && front[..|path|] == path && front[|path|] == ':'
    ensures Strip(front) != path
  {
    assert Run(IsSpace, front) == 0 by {
      if path != "" { assert front[0] == path[0]; }
    }
    assert front[0..] == front;
    TrimKeepsSolid(front, |path|);
  }

  lemma {:induction false} TrimKeepsSolid(s: string, i: nat)
    requires i < |s| && !IsSpace(s[i])
    ensures |TrimRight(IsSpace, s)| > i
    decreases |s|
  {
    if IsSpace(s[|s| - 1]) { TrimKeepsSolid(s[..|s| - 1], i); }
  }

  function PrintPins(pins: seq<(string, string)>): seq<string> {
    if pins == [] then [] else [PinLine(pins[0].0, pins[0].1)] + PrintPins(pins[1..])
  }

  function PinMap(pins: seq<(string, string)>, m: map<string, string>): map<string, string> {
    if pins == [] then m else PinMap(pins[1..], m[pins[0].0 := pins[0].1])
  }

  predicate GoodPin(p: (string, string)) { Stripped(p.0) && Stripped(p.1) && ':' !in p.1 && p != ("files", "") }

  lemma {:induction false} FoldConcat(st: Pins, a: seq<string>, b: seq<string>)
    ensures PinFold(st, a + b) == PinFold(PinFold(st, a), b)
    decreases |a|
  {
    if a == [] {
      assert a + b == b;
    } else {
      assert (a + b)[1..] == a[1..] + b;
      FoldConcat(PinStep(st, a[0]), a[1..], b);
    }
  }

  lemma {:induction false} NoHeaderFold(st: Pins, lines: seq<string>)
    requires !st.inFiles && forall ln | ln in lines :: !IsFilesHeader(ln)
    ensures PinFold(st, lines) == st
    decreases |lines|
  {
    if lines != [] {
      assert lines[0] in lines && forall ln | ln in lines[1..] :: ln in lines;
      NoHeaderFold(st, lines[1..]);
    }
  }

  lemma {:induction false} PinLinesFold(m: map<string, string>, pins: seq<(string, string)>)
    requires forall p | p in pins :: GoodPin(p)
    ensures PinFold(Pins(m, true), PrintPins(pins)) == Pins(PinMap(pins, m), true)
    decreases |pins|
  {
    if pins != [] {
      assert GoodPin(pins[0]) && forall p | p in pins[1..] :: p in pins;
      PinRoundTrip(pins[0].0, pins[0].1);
      PinLinesFold(m[pins[0].0 := pins[0].1], pins[1..]);
    }
  }

  /** Any printed pin map is read back, wherever its block stands: paths may hold colons. */
  lemma PinsRoundTrip(before: seq<string>, header: string, pins: seq<(string, string)>, after: seq<string>)
    requires Strip(header) == "files:" && forall ln | ln in before + after :: Strip(ln) != "files:"
    requires (forall p | p in pins :: GoodPin(p))
    requires after == [] || !("  " <= after[0]) || ':' !in after[0]
    ensures PinFold(Pins(map[], false), before + ([header] + (PrintPins(pins) + after))).pins == PinMap(pins, map[])
  {
    var start := Pins(map[], false);
    assert (forall ln | ln in before :: ln in before + after) && (forall ln | ln in after :: ln in before + after);
    FoldConcat(start, before, [header] + (PrintPins(pins) + after));
    NoHeaderFold(start, before);
    assert ([header] + (PrintPins(pins) + after))[1..] == PrintPins(pins) + after;
    FoldConcat(Pins(map[], true), PrintPins(pins), after);
    PinLinesFold(map[], pins);
    if after != [] {
      assert after[0] in after && forall ln | ln in after[1..] :: ln in after;
      NoHeaderFold(Pins(PinMap(pins, map[]), false), after[1..]);
    }
  }

  // ---- _parse_named_list ----

  type Entry<V> = map<string, V>

  datatype ListState<V> = ListState(entries: seq<Entry<V>>, cur: Option<Entry<V>>, inList: bool)

  predicate IsHeader(key: string, ln: string) { key + ":" <= ln }

  predicate IsNameLine(ln: string) { "  - name:" <= ln }

  predicate IsFieldLine(ln: string) { "    " <= ln && ':' in ln }

  /** A line at top level: not blank, not indented, no comment. */
  predicate IsTopLevel(ln: string) { Strip(ln) != "" && ln != "" && ln[0] != ' ' && ln[0] != '#' }

  function AfterColon(s: string): string { if FirstColon(s) < |s| then s[FirstColon(s) + 1..] else "" }

  function Flush<V>(st: ListState<V>): seq<Entry<V>> {
    if st.cur.Some? then st.entries + [st.cur.value] else st.entries
  }

  function ListStep<V>(scalar: string -> V, key: string, st: ListState<V>, ln: string): ListState<V> {
    if IsHeader(key, ln) then st.(inList := true)
    else if !st.inList then st
    else if IsNameLine(ln) then ListState(Flush(st), Some(map["name" := scalar(AfterColon(ln))]), true)
    else if st.cur.Some? && IsFieldLine(ln) then
      var s := Strip(ln);
      st.(cur := Some(st.cur.value[Strip(s[..FirstColon(s)]) := scalar(AfterColon(s))]))
    else if IsTopLevel(ln) then ListState(Flush(st), None, false)
    else st
  }

  function ListFold<V>(scalar: string -> V, key: string, st: ListState<V>, lines: seq<string>): ListState<V>
    decreases |lines|
  {
    if lines == [] then st else ListFold(scalar, key, ListStep(scalar, key, st, lines[0]), lines[1..])
  }

  function NamedList<V>(scalar: string -> V, key: string, lines: seq<string>): Option<seq<Entry<V>>> {
    var end := ListFold(scalar, key, ListState([], None, false), lines);
    if end.inList then Some(Flush(end)) else None
  }

  method ParseNamedList<V>(scalar: string -> V, key: string, lines: seq<string>) returns (r: Option<seq<Entry<V>>>)
    ensures r == NamedList(scalar, key, lines)
  {
    var entries: seq<Entry<V>> := [];
    var cur: Option<Entry<V>> := None;
    var inList := false;
    assert lines[0..] == lines;
    for i := 0 to |lines|
      invariant ListFold(scalar, key, ListState([], None, false), lines) ==
                ListFold(scalar, key, ListState(entries, cur, inList), lines[i..])
    {
      var ln := lines[i];
      assert lines[i..][0] == ln && lines[i..][1..] == lines[i + 1..];
      if IsHeader(key, ln) {
        inList := true;
        continue;
      }
      if !inList {
        continue;
      }
      if IsNameLine(ln) {
        if cur.Some? {
          entries := entries + [cur.value];
        }
        cur := Some(map["name" := scalar(AfterColon(ln))]);
      } else if cur.Some? && IsFieldLine(ln) {
        var s := Strip(ln);
        cur := Some(cur.value[Strip(s[..FirstColon(s)]) := scalar(AfterColon(s))]);
      } else if IsTopLevel(ln) {
        if cur.Some? {
          entries := entries + [cur.value];
        }
        cur := None;
        inList := false;
      }
    }
    if cur.Some? {
      entries := entries + [cur.value];
    }
    r := if inList then Some(entries) else None;
  }

  /** Every top-level line from index `k` on is the list's own header. */
  predicate HeadersFrom(key: string, lines: seq<string>, k: nat) {
    forall i | k <= i < |lines| && IsTopLevel(lines[i]) :: IsHeader(key, lines[i])
  }

  /** The list is still open at the end: a header line with no other top-level line after it. */
  predicate OpenAtEnd(key: string, lines: seq<string>) {
    exists h | 0 <= h < |lines| :: IsHeader(key, lines[h]) && HeadersFrom(key, lines, h + 1)
  }

  lemma {:induction false} OpenIff<V>(scalar: string -> V, key: string, st: ListState<V>, lines: seq<string>)
    ensures ListFold(scalar, key, st, lines).inList <==>
            OpenAtEnd(key, lines) || (st.inList && HeadersFrom(key, lines, 0))
    decreases |lines|
  {
    if lines != [] {
      var next, rest := ListStep(scalar, key, st, lines[0]), lines[1..];
      OpenIff(scalar, key, next, rest);
      OpenCons(key, lines);
    }
  }

  lemma HeadersShift(key: string, lines: seq<string>, k: nat)
    requires lines != []
    ensures HeadersFrom(key, lines, k + 1) <==> HeadersFrom(key, lines[1..], k)
  {
    var rest := lines[1..];
    assert forall i | 0 <= i < |rest| :: rest[i] == lines[i + 1];
    assert forall i | 1 <= i < |lines| :: lines[i] == rest[i - 1];
  }

  lemma OpenCons(key: string, lines: seq<string>)
    requires lines != []
    ensures OpenAtEnd(key, lines) <==>
            OpenAtEnd(key, lines[1..]) || (IsHeader(key, lines[0]) && HeadersFrom(key, lines[1..], 0))
    ensures HeadersFrom(key, lines, 0) <==>
            (IsTopLevel(lines[0]) ==> IsHeader(key, lines[0])) && HeadersFrom(key, lines[1..], 0)
  {
    var rest := lines[1..];
    HeadersShift(key, lines, 0);
    if OpenAtEnd(key, lines) {
      var h :| 0 <= h < |lines| && IsHeader(key, lines[h]) && HeadersFrom(key, lines, h + 1);
      if h > 0 {
        HeadersShift(key, lines, h);
        assert rest[h - 1] == lines[h] && HeadersFrom(key, rest, h - 1 + 1);
      }
    }
    if OpenAtEnd(key, rest) {
      var h :| 0 <= h < |rest| && IsHeader(key, rest[h]) && HeadersFrom(key, rest, h + 1);
      HeadersShift(key, lines, h + 1);
      assert rest[h] == lines[h + 1];
    }
  }

  /** The parser answers None exactly when the list is not the last block: a key that is present but
      followed by another top-level line reads as absent. */
  lemma NoneExactly<V>(scalar: string -> V, key: string, lines: seq<string>)
    ensures NamedList(scalar, key, lines).None? <==> !OpenAtEnd(key, lines)
  {
    OpenIff(scalar, key, ListState([], None, false), lines);
  }

  // ---- printed entries ----

  datatype Source = Source(name: string, fields: seq<(string, string)>)

  function NameLine(text: string): string { "  - name: " + text }

  function FieldLine(k: string, text: string): string { "    " + (k + (": " + text)) }

  function FieldLines(fields: seq<(string, string)>): seq<string> {
    if fields == [] then [] else [FieldLine(fields[0].0, fields[0].1)] + FieldLines(fields[1..])
  }

  function EntryLines(entries: seq<Source>): seq<string> {
    if entries == [] then []
    else [NameLine(entries[0].name)] + (FieldLines(entries[0].fields) + EntryLines(entries[1..]))
  }

  function FieldMap<V>(scalar: string -> V, fields: seq<(string, string)>, m: Entry<V>): Entry<V> {
    if fields == [] then m else FieldMap(scalar, fields[1..], m[fields[0].0 := scalar(fields[0].1)])
  }

  function Meant<V>(scalar: string -> V, entries: seq<Source>): seq<Entry<V>> {
    if entries == [] then [] else
      [FieldMap(scalar, entries[0].fields, map["name" := scalar(entries[0].name)])] + Meant(scalar, entries[1..])
  }

  predicate GoodField(f: (string, string)) { Stripped(f.0) && ':' !in f.0 && Stripped(f.1) }

  predicate GoodSource(e: Source) { Stripped(e.name) && forall f | f in e.fields :: GoodField(f) }

  /** A scalar reader strips before it looks. */
  ghost predicate StripsFirst<V>(scalar: string -> V) { forall s :: scalar(s) == scalar(Strip(s)) }

  lemma {:induction false} FirstColonAt(a: string, b: string)
    requires ':' !in a
    ensures FirstColon(a + (":" + b)) == |a|
    decreases |a|
  {
    var s := a + (":" + b);
    if a != "" {
      assert s[0] == a[0] && a[0] in a && forall x | x in a[1..] :: x in a;
      assert s[1..] == a[1..] + (":" + b);
      FirstColonAt(a[1..], b);
    }
  }

  lemma ListFoldConcat<V>(scalar: string -> V, key: string, st: ListState<V>, a: seq<string>, b: seq<string>)
    ensures ListFold(scalar, key, st, a + b) == ListFold(scalar, key, ListFold(scalar, key, st, a), b)
    decreases |a|
  {
    if a == [] {
      assert a + b == b;
    } else {
      assert (a + b)[1..] == a[1..] + b;
      ListFoldConcat(scalar, key, ListStep(scalar, key, st, a[0]), a[1..], b);
    }
  }

  /** A field line splits back into its key and its text. */
  lemma FieldSplits(f: (string, string))
    requires GoodField(f)
    ensures var s := Strip(FieldLine(f.0, f.1));
            Strip(s[..FirstColon(s)]) == f.0 && Strip(AfterColon(s)) == f.1 && Strip(f.1) == f.1
  {
    var tail := if f.1 == "" then "" else " " + f.1;
    FieldStripped(f.0, f.1);
    SplitsAtColon(Strip(FieldLine(f.0, f.1)), f.0, tail);
    StrippedIsFixed(f.0);
    StrippedIsFixed(f.1);
    StripTail(f.1);
  }

  lemma FieldStripped(k: string, v: string)
    requires Stripped(k) && Stripped(v)
    ensures Strip(FieldLine(k, v)) == k + (":" + if v == "" then "" else " " + v)
  {
    PinLineStripped(k, v);
    assert FieldLine(k, v) == "  " + PinLine(k, v);
    StripIndented(PinLine(k, v));
    ColonForm(k, v);
  }

  lemma SplitsAtColon(s: string, a: string, b: string)
    requires s == a + (":" + b) && ':' !in a
    ensures s[..FirstColon(s)] == a && AfterColon(s) == b
  {
    FirstColonAt(a, b);
    CutAt(a, b);
  }

  lemma FieldStep<V>(scalar: string -> V, key: string, st: ListState<V>, f: (string, string))
    requires StripsFirst(scalar) && key != "" && key[0] != ' ' && st.inList && st.cur.Some? && GoodField(f)
    ensures ListStep(scalar, key, st, FieldLine(f.0, f.1)) == st.(cur := Some(st.cur.value[f.0 := scalar(f.1)]))
  {
    var ln := FieldLine(f.0, f.1);
    assert IsFieldLine(ln) && !IsNameLine(ln) && ln[0] == ' ' by {
      assert ln[4 + |f.0|] == ':' && ln[2] == ' ' && "  - name:"[2] == '-';
    }
    assert !IsHeader(key, FieldLine(f.0, f.1)) by {
      assert (key + ":")[0] == key[0];
    }
    FieldSplits(f);
  }

  lemma StripIndented(s: string)
    ensures Strip("  " + s) == Strip(s)
  {
    assert ("  " + s)[1..] == " " + s && (" " + s)[1..] == s;
    var n := Run(IsSpace, s);
    assert Run(IsSpace, "  " + s) == n + 2;
    assert ("  " + s)[n + 2..] == s[n..];
  }

  lemma NameStep<V>(scalar: string -> V, key: string, st: ListState<V>, text: string)
    requires StripsFirst(scalar) && key != "" && key[0] != ' ' && st.inList && Stripped(text)
    ensures ListStep(scalar, key, st, NameLine(text)) == ListState(Flush(st), Some(map["name" := scalar(text)]), true)
  {
    var ln := NameLine(text);
    assert !IsHeader(key, ln) by {
      assert (key + ":")[0] == key[0];
    }
    assert ln == "  - name" + (":" + (" " + text));
    FirstColonAt("  - name", " " + text);
    assert ln[8 + 1..] == " " + text;
    RunOneSpace(text);
  }

  lemma RunOneSpace(text: string)
    requires Stripped(text)
    ensures Strip(" " + text) == text && Strip(text) == text
  {
    StrippedIsFixed(text);
    if text == "" {
      assert " " + text == " ";
      assert All(IsSpace, " ");
      RunOfAll(IsSpace, " ");
    } else {
      StripTail(text);
    }
  }

  lemma {:induction false} FieldsFold<V>(scalar: string -> V, key: string, st: ListState<V>,
          fields: seq<(string, string)>)
    requires StripsFirst(scalar) && key != "" && key[0] != ' ' && st.inList && st.cur.Some?
             && forall f | f in fields :: GoodField(f)
    ensures ListFold(scalar, key, st, FieldLines(fields)) == st.(cur := Some(FieldMap(scalar, fields, st.cur.value)))
    decreases |fields|
  {
    if fields != [] {
      assert GoodField(fields[0]) && forall f | f in fields[1..] :: f in fields;
      FieldStep(scalar, key, st, fields[0]);
      FieldsFold(scalar, key, ListStep(scalar, key, st, FieldLine(fields[0].0, fields[0].1)), fields[1..]);
    }
  }

  lemma EntryFold<V>(scalar: string -> V, key: string, st: ListState<V>, e: Source)
    requires StripsFirst(scalar) && key != "" && key[0] != ' ' && st.inList && GoodSource(e)
    ensures var own := FieldMap(scalar, e.fields, map["name" := scalar(e.name)]);
            ListFold(scalar, key, ListStep(scalar, key, st, NameLine(e.name)), FieldLines(e.fields)) ==
                ListState(Flush(st), Some(own), true)
  {
    NameStep(scalar, key, st, e.name);
    FieldsFold(scalar, key, ListStep(scalar, key, st, NameLine(e.name)), e.fields);
  }

  lemma {:induction false} EntriesFold<V>(scalar: string -> V, key: string, st: ListState<V>, entries: seq<Source>)
    requires StripsFirst(scalar) && key != "" && key[0] != ' ' && st.inList && forall e | e in entries :: GoodSource(e)
    ensures var end := ListFold(scalar, key, st, EntryLines(entries));
            end.inList && Flush(end) == Flush(st) + Meant(scalar, entries)
    decreases |entries|
  {
    if entries != [] {
      var e := entries[0];
      assert GoodSource(e) && forall x | x in entries[1..] :: x in entries;
      var named := ListStep(scalar, key, st, NameLine(e.name));
      EntryFold(scalar, key, st, e);
      ListFoldConcat(scalar, key, named, FieldLines(e.fields), EntryLines(entries[1..]));
      var done := ListFold(scalar, key, named, FieldLines(e.fields));
      EntriesFold(scalar, key, done, entries[1..]);
      MeantCons(scalar, st, done, entries);
    }
  }

  lemma MeantCons<V>(scalar: string -> V, st: ListState<V>, done: ListState<V>, entries: seq<Source>)
    requires entries != [] && done.entries == Flush(st) && done.inList
    requires done.cur == Some(FieldMap(scalar, entries[0].fields, map["name" := scalar(entries[0].name)]))
    ensures Flush(done) + Meant(scalar, entries[1..]) == Flush(st) + Meant(scalar, entries)
  {}

  lemma {:induction false} BeforeHeader<V>(scalar: string -> V, key: string, st: ListState<V>, lines: seq<string>)
    requires !st.inList && forall ln | ln in lines :: !IsHeader(key, ln)
    ensures ListFold(scalar, key, st, lines) == st
    decreases |lines|
  {
    if lines != [] {
      assert lines[0] in lines && forall ln | ln in lines[1..] :: ln in lines;
      BeforeHeader(scalar, key, st, lines[1..]);
    }
  }

  lemma PrintedListFold<V>(scalar: string -> V, key: string, before: seq<string>, entries: seq<Source>)
    requires StripsFirst(scalar) && key != "" && key[0] != ' '
    requires (forall ln | ln in before :: !(key + ":" <= ln)) && forall e | e in entries :: GoodSource(e)
    ensures var end := ListFold(scalar, key, ListState([], None, false), before + ([key + ":"] + EntryLines(entries)));
            end.inList && Flush(end) == Meant(scalar, entries)
  {
    var start: ListState<V> := ListState([], None, false);
    ListFoldConcat(scalar, key, start, before, [key + ":"] + EntryLines(entries));
    BeforeHeader(scalar, key, start, before);
    assert ([key + ":"] + EntryLines(entries))[1..] == EntryLines(entries);
    var begun := ListStep(scalar, key, start, key + ":");
    EntriesFold(scalar, key, begun, entries);
    assert [] + Meant(scalar, entries) == Meant(scalar, entries);
  }

  /** Any printed entry list that is the last block is read back, each scalar by the scalar reader. */
  lemma NamedListRoundTrip<V>(scalar: string -> V, key: string, before: seq<string>, entries: seq<Source>)
    requires StripsFirst(scalar) && key != "" && key[0] != ' '
    requires (forall ln | ln in before :: !(key + ":" <= ln)) && forall e | e in entries :: GoodSource(e)
    ensures NamedList(scalar, key, before + ([key + ":"] + EntryLines(entries))) == Some(Meant(scalar, entries))
  {
    PrintedListFold(scalar, key, before, entries);
  }

  /** A line after the entries that is no header of the list, no name and no field: blank lines, comments and
      other indented lines change nothing, any other line closes the list and loses it. */
  lemma LineAfterList<V>(scalar: string -> V, key: string, before: seq<string>, entries: seq<Source>, ln: string)
    requires StripsFirst(scalar) && key != "" && key[0] != ' '
    requires (forall x | x in before :: !(key + ":" <= x)) && forall e | e in entries :: GoodSource(e)
    requires !(key + ":" <= ln) && !("  - name:" <= ln) && !("    " <= ln && ':' in ln)
    ensures NamedList(scalar, key, (before + ([key + ":"] + EntryLines(entries))) + [ln]) ==
            if Strip(ln) == "" || ln[0] == ' ' || ln[0] == '#' then Some(Meant(scalar, entries)) else None
  {
    var lines := before + ([key + ":"] + EntryLines(entries));
    assert ln == "" ==> Strip(ln) == "";
    PrintedListFold(scalar, key, before, entries);
    ListFoldConcat(scalar, key, ListState([], None, false), lines, [ln]);
    assert [ln][1..] == [];
  }
}
