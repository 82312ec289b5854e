/** Recording meta files: lines of `key: value`, and the readers that scan them. */
module MetaFiles {
  import opened Options

  const LINE_LIMIT: int := 64 * 1024      // bytes; the scanner gives up on longer lines

  type Entry = (string, string)

  // ----- writing

  function MetaLine(e: Entry): string {
    e.0 + ": " + e.1 + "\n"
  }

  function MetaText(es: seq<Entry>): string {
    if es == [] then "" else MetaLine(es[0]) + MetaText(es[1..])
  }

  lemma {:induction false} MetaTextAppend(es: seq<Entry>, e: Entry)
    ensures MetaText(es + [e]) == MetaText(es) + MetaLine(e)
  {
    if es == [] {
      assert es + [e] == [e] && [e][1..] == [];
    } else {
      MetaTextAppend(es[1..], e);
      assert (es + [e])[1..] == es[1..] + [e];
    }
  }

  /** A container's meta file while it is written. */
  class MetaWriter {
    var text: string
    ghost var entries: seq<Entry>

    ghost predicate Valid()
      reads this
    {
      text == MetaText(entries)
    }

    constructor ()
      ensures Valid() && entries == []
    {
      text, entries := "", [];
    }

    method WriteMeta(k: string, v: string)
      requires Valid()
      modifies this
      ensures Valid() && entries == old(entries) + [(k, v)]
      ensures text == old(text) + k + ": " + v + "\n"
    {
      MetaTextAppend(entries, (k, v));
      text := text + k + ": " + v + "\n";
      assert text == old(text) + MetaLine((k, v));
      entries := entries + [(k, v)];
    }

    /** The opening lines of a session's file. */
    method WriteSession(id: string, protocol: string)
      requires Valid()
      modifies this
      ensures Valid() && entries == old(entries) + [("id", id), ("protocol", protocol)]
    {
      WriteMeta("id", id);
      WriteMeta("protocol", protocol);
      assert entries == old(entries) + [("id", id), ("protocol", protocol)];
    }

    /** The line a new connection adds to its session's file. */
    method WriteConnection(id: string)
      requires Valid()
      modifies this
      ensures Valid() && entries == old(entries) + [("connection", id + ".connection")]
    {
      WriteMeta("connection", id + ".connection");
    }
  }

  // ----- scanning

  function Utf8Size(c: char): nat {
    var n := c as int;
    if n < 0x80 then 1 else if n < 0x800 then 2 else if n < 0x10000 then 3 else 4
  }

  function ByteLength(s: string): nat {
    if s == "" then 0 else Utf8Size(s[0]) + ByteLength(s[1..])
  }

  /** Where the character first occurs, or the length if it does not. */
  function Find(s: string, c: char): (n: nat)
    ensures n <= |s| && c !in s[..n] && (n < |s| ==> s[n] == c)
  {
    if s == "" || s[0] == c then 0
    else
      var n := 1 + Find(s[1..], c);
      assert s[..n] == [s[0]] + s[1..][..n - 1];
      n
  }

  function DropReturn(line: string): string {
    if line != "" && line[|line| - 1] == '\r' then line[..|line| - 1] else line
  }

  /** The lines a scanner yields; a line over the limit ends the scan, and no reader asks why. */
  function ScanLines(text: string): seq<string> {
    if text == "" then []
    else
      var n := Find(text, '\n');
      if ByteLength(text[..n]) >= LINE_LIMIT then []
      else [DropReturn(text[..n])] + ScanLines(text[(if n < |text| then n + 1 else n)..])
  }

  /** White space as Unicode has it. */
  predicate IsSpace(c: char) {
    var n := c as int;
    9 <= n <= 13 || n == 0x20 || n == 0x85 || n == 0xA0 || n == 0x1680 || 0x2000 <= n <= 0x200A
    || n == 0x2028 || n == 0x2029 || n == 0x202F || n == 0x205F || n == 0x3000
  }

  function TrimLeft(s: string): string {
    if s != "" && IsSpace(s[0]) then TrimLeft(s[1..]) else s
  }

  function TrimRight(s: string): string {
    if s != "" && IsSpace(s[|s| - 1]) then TrimRight(s[..|s| - 1]) else s
  }

  function TrimSpace(s: string): string {
    TrimRight(TrimLeft(s))
  }

  // ----- reading

  /** A line as a key and a value, cut at the first colon. */
  function ParseLine(line: string): Option<Entry> {
    var n := Find(line, ':');
    if n == |line| then None else Some((line[..n], TrimSpace(line[n + 1..])))
  }

  /** All entries in order; empty lines are skipped, and a line without a colon is an error. */
  function Entries(lines: seq<string>): Option<seq<Entry>> {
    if lines == [] then Some([])
    else if lines[0] == "" then Entries(lines[1..])
    else
      var e :- ParseLine(lines[0]);
      var rest :- Entries(lines[1..]);
      Some([e] + rest)
  }

  /** The last value under a key, or the empty string. */
  function LastValue(es: seq<Entry>, key: string): string {
    if es == [] then ""
    else if es[|es| - 1].0 == key then es[|es| - 1].1
    else LastValue(es[..|es| - 1], key)
  }

  function Values(es: seq<Entry>, key: string): set<string> {
    set i | 0 <= i < |es| && es[i].0 == key :: es[i].1
  }

  datatype SessionMeta = SessionMeta(id: string, protocol: string, connections: set<string>)

  datatype ConnectionMeta = ConnectionMeta(id: string, channels: set<string>)

  datatype ChannelMeta = ChannelMeta(id: string, typ: string)

  method DecodeSessionMeta(text: string) returns (r: Option<SessionMeta>)
    ensures var es := Entries(ScanLines(text));
            r == if es.None? then None
                 else Some(SessionMeta(
                   LastValue(es.value, "id"), LastValue(es.value, "protocol"), Values(es.value, "connection")))
    ensures r.Some? ==>
      var es := Entries(ScanLines(text)).value;
      r.value.connections == set i | 0 <= i < |es| && es[i].0 == "connection" :: es[i].1
  {
    hide ScanLines, ParseLine, LastValue, Values;
    var lines := ScanLines(text);
    NoEntries();
    assert lines[0..] == lines;
    var id, protocol, connections := "", "", {};
    ghost var es: seq<Entry> := [];
    for i := 0 to |lines|
      invariant Entries(lines) == Prepend(es, Entries(lines[i..]))
      invariant id == LastValue(es, "id") && protocol == LastValue(es, "protocol")
      invariant connections == Values(es, "connection")
    {
      var l := lines[i];
      assert lines[i..][0] == l && lines[i..][1..] == lines[i + 1..];
      if |l| != 0 {
        var cut := ParseLine(l);
        if cut.None? {
          return None;
        }
        var (k, v) := cut.value;
        Extend(es, (k, v), Entries(lines[i + 1..]));
        es := es + [(k, v)];
        if k == "id" {
          id := v;
        } else if k == "protocol" {
          protocol := v;
        } else if k == "connection" {
          connections := connections + {v};
        }
      }
    }
    assert lines[|lines|..] == [] && es + [] == es;
    ValuesAre(es, "connection");
    return Some(SessionMeta(id, protocol, connections));
  }

  method DecodeConnectionMeta(text: string) returns (r: Option<ConnectionMeta>)
    ensures var es := Entries(ScanLines(text));
            r == if es.None? then None else Some(ConnectionMeta(LastValue(es.value, "id"), Values(es.value, "channel")))
    ensures r.Some? ==>
      var es := Entries(ScanLines(text)).value;
      r.value.channels == set i | 0 <= i < |es| && es[i].0 == "channel" :: es[i].1
  {
    hide ScanLines, ParseLine, LastValue, Values;
    var lines := ScanLines(text);
    NoEntries();
    assert lines[0..] == lines;
    var id, channels := "", {};
    ghost var es: seq<Entry> := [];
    for i := 0 to |lines|
      invariant Entries(lines) == Prepend(es, Entries(lines[i..]))
      invariant id == LastValue(es, "id") && channels == Values(es, "channel")
    {
      var l := lines[i];
      assert lines[i..][0] == l && lines[i..][1..] == lines[i + 1..];
      if |l| != 0 {
        var cut := ParseLine(l);
        if cut.None? {
          return None;
        }
        var (k, v) := cut.value;
        Extend(es, (k, v), Entries(lines[i + 1..]));
        es := es + [(k, v)];
        if k == "id" {
          id := v;
        } else if k == "channel" {
          channels := channels + {v};
        }
      }
    }
    assert lines[|lines|..] == [] && es + [] == es;
    ValuesAre(es, "channel");
    return Some(ConnectionMeta(id, channels));
  }

  method DecodeChannelMeta(text: string) returns (r: Option<ChannelMeta>)
    ensures var es := Entries(ScanLines(text));
            r == if es.None? then None
                 else Some(ChannelMeta(LastValue(es.value, "id"), LastValue(es.value, "channelType")))
  {
    hide ScanLines, ParseLine, LastValue, Values;
    var lines := ScanLines(text);
    NoEntries();
    assert lines[0..] == lines;
    var id, typ := "", "";
    ghost var es: seq<Entry> := [];
    for i := 0 to |lines|
      invariant Entries(lines) == Prepend(es, Entries(lines[i..]))
      invariant id == LastValue(es, "id") && typ == LastValue(es, "channelType")
    {
      var l := lines[i];
      assert lines[i..][0] == l && lines[i..][1..] == lines[i + 1..];
      if |l| != 0 {
        var cut := ParseLine(l);
        if cut.None? {
          return None;
        }
        var (k, v) := cut.value;
        Extend(es, (k, v), Entries(lines[i + 1..]));
        es := es + [(k, v)];
        if k == "id" {
          id := v;
        } else if k == "channelType" {
          typ := v;
        }
      }
    }
    assert lines[|lines|..] == [] && es + [] == es;
    return Some(ChannelMeta(id, typ));
  }

  function Prepend(es: seq<Entry>, rest: Option<seq<Entry>>): Option<seq<Entry>> {
    if rest.None? then None else Some(es + rest.value)
  }

  lemma ValuesAre(es: seq<Entry>, key: string)
    ensures Values(es, key) == set i | 0 <= i < |es| && es[i].0 == key :: es[i].1
  {
  }

  lemma NoEntries()
    ensures forall key :: LastValue([], key) == "" && Values([], key) == {}
    ensures forall rest :: Prepend([], rest) == rest
  {
    forall rest: Option<seq<Entry>> ensures Prepend([], rest) == rest {
      assert rest.Some? ==> [] + rest.value == rest.value;
    }
  }

  lemma Extend(es: seq<Entry>, e: Entry, rest: Option<seq<Entry>>)
    ensures Prepend(es + [e], rest) == Prepend(es, Prepend([e], rest))
    ensures forall key :: LastValue(es + [e], key) == if e.0 == key then e.1 else LastValue(es, key)
    ensures forall key :: Values(es + [e], key) == Values(es, key) + if e.0 == key then {e.1} else {}
  {
    var es' := es + [e];
    assert es'[..|es|] == es;
    if rest.Some? {
      assert es + [e] + rest.value == es + ([e] + rest.value);
    }
    forall key ensures Values(es', key) == Values(es, key) + if e.0 == key then {e.1} else {} {
      assert forall i :: 0 <= i < |es| ==> es'[i] == es[i];
      assert es'[|es|] == e;
      forall v | v in Values(es, key) ensures v in Values(es', key) {
        var i :| 0 <= i < |es| && es[i].0 == key && es[i].1 == v;
        assert es'[i].1 == v;
      }
    }
  }

  // ----- lines

  /** Reading fails exactly on a line that is not empty and has no colon. */
  lemma {:induction false} EntriesFailIff(lines: seq<string>)
    ensures Entries(lines) == None <==> exists i :: 0 <= i < |lines| && lines[i] != "" && ':' !in lines[i]
  {
    if lines != [] {
      EntriesFailIff(lines[1..]);
      var n := Find(lines[0], ':');
      assert ParseLine(lines[0]).None? <==> ':' !in lines[0] by {
        assert n == |lines[0]| ==> lines[0][..n] == lines[0];
      }
      if i :| 0 <= i < |lines| && lines[i] != "" && ':' !in lines[i] {
        assert i > 0 ==> lines[1..][i - 1] == lines[i];
      } else {
        assert forall i :: 0 <= i < |lines[1..]| ==> lines[1..][i] == lines[i + 1];
      }
    }
  }

  /** A line is cut at its first colon; the key is kept as it stands, the value trimmed. */
  lemma LineCut(key: string, value: string)
    requires ':' !in key
    ensures ParseLine(key + ":" + value) == Some((key, TrimSpace(value)))
  {
    var line := key + ":" + value;
    assert line[..|key|] == key && line[|key| + 1..] == value;
    FindAt(line, ':', |key|);
  }

  ghost predicate AllSpace(s: string) {
    forall c :: c in s ==> IsSpace(c)
  }

  /** Trimming takes white space off both ends, and all of it. */
  lemma TrimSpaceIs(s: string) returns (before: string, after: string)
    ensures s == before + TrimSpace(s) + after && AllSpace(before) && AllSpace(after)
    ensures TrimSpace(s) != "" ==> !IsSpace(TrimSpace(s)[0]) && !IsSpace(TrimSpace(s)[|TrimSpace(s)| - 1])
  {
    before := TrimmedLeft(s);
    after := TrimmedRight(TrimLeft(s));
    TrimLeftShortens(s);
    TrimRightShortens(TrimLeft(s));
    assert s == before + (TrimSpace(s) + after) == before + TrimSpace(s) + after;
  }

  lemma {:induction false} TrimmedLeft(s: string) returns (before: string)
    ensures s == before + TrimLeft(s) && AllSpace(before)
  {
    before := "";
    if s != "" && IsSpace(s[0]) {
      var more := TrimmedLeft(s[1..]);
      before := [s[0]] + more;
      assert s == [s[0]] + s[1..];
    }
  }

  lemma {:induction false} TrimmedRight(s: string) returns (after: string)
    ensures s == TrimRight(s) + after && AllSpace(after)
  {
    after := "";
    if s != "" && IsSpace(s[|s| - 1]) {
      var n := |s| - 1;
      var more := TrimmedRight(s[..n]);
      after := more + [s[n]];
      assert s == s[..n] + [s[n]];
    }
  }

  /** An empty line, ended either way, is a line of nothing. */
  lemma BlankLines(rest: string)
    ensures ScanLines("\n" + rest) == [""] + ScanLines(rest)
    ensures ScanLines("\r\n" + rest) == [""] + ScanLines(rest)
  {
    hide ScanLines, Find;
    ScanLine("", rest);
    ScanLine("\r", rest);
    assert "" + "\n" + rest == "\n" + rest && "\r" + "\n" + rest == "\r\n" + rest;
  }

  /** A last line needs no end. */
  lemma LastLine(line: string)
    requires line != "" && '\n' !in line && ByteLength(line) < 65536
    ensures ScanLines(line) == [if line[|line| - 1] == '\r' then line[..|line| - 1] else line]
  {
    hide ByteLength;
    var n := Find(line, '\n');
    assert n == |line| && line[..n] == line && line[n..] == "";
  }

  /** The size of a character grows at three places only. */
  lemma Utf8Boundaries(c: char)
    ensures (Utf8Size(c) >= 2 <==> c as int >= 0x80) && (Utf8Size(c) >= 3 <==> c as int >= 0x800)
    ensures (Utf8Size(c) >= 4 <==> c as int >= 0x1_0000) && 1 <= Utf8Size(c) <= 4
  {
  }

  /** In ASCII a line fits exactly if key, colon, space and value are less than 65536 characters. */
  lemma AsciiLineFitsIff(e: Entry)
    requires forall c :: c in e.0 || c in e.1 ==> c as int < 0x80
    ensures LineFits(e) <==> |e.0| + 2 + |e.1| < 65536
  {
    var line := e.0 + ": " + e.1;
    assert forall c :: c in line ==> c in e.0 || c in e.1 || c == ':' || c == ' ';
    AsciiLength(line);
  }

  lemma {:induction false} AsciiLength(s: string)
    requires forall c :: c in s ==> c as int < 0x80
    ensures ByteLength(s) == |s|
  {
    if s != "" {
      assert s[0] in s;
      assert forall c :: c in s[1..] ==> c in s;
      AsciiLength(s[1..]);
    }
  }

  // ----- round trips

  ghost predicate KeyOk(key: string) {
    ':' !in key && '\n' !in key
  }

  ghost predicate CleanValue(v: string) {
    '\n' !in v && TrimSpace(v) == v
  }

  predicate LineFits(e: Entry) {
    ByteLength(e.0 + ": " + e.1) < LINE_LIMIT
  }

  /** The entries before the first line the scanner refuses. */
  function Fitting(es: seq<Entry>): seq<Entry> {
    if es == [] || !LineFits(es[0]) then [] else [es[0]] + Fitting(es[1..])
  }

  lemma {:induction false} FindAt(s: string, c: char, n: nat)
    requires n < |s| && s[n] == c && c !in s[..n]
    ensures Find(s, c) == n
  {
    if n > 0 {
      assert s[..n] == [s[0]] + s[1..][..n - 1];
      FindAt(s[1..], c, n - 1);
    }
  }

  lemma ScanLine(line: string, rest: string)
    requires '\n' !in line
    ensures ScanLines(line + "\n" + rest) ==
      if ByteLength(line) >= LINE_LIMIT then [] else [DropReturn(line)] + ScanLines(rest)
  {
    var text := line + "\n" + rest;
    assert text[..|line|] == line && text[|line| + 1..] == rest;
    FindAt(text, '\n', |line|);
  }

  lemma TrimmedEnds(v: string)
    requires TrimSpace(v) == v && v != ""
    ensures !IsSpace(v[0]) && !IsSpace(v[|v| - 1])
  {
    TrimLeftShortens(v);
    TrimRightShortens(TrimLeft(v));
  }

  lemma {:induction false} TrimLeftShortens(s: string)
    ensures |TrimLeft(s)| <= |s| && (TrimLeft(s) == s || |TrimLeft(s)| < |s|)
    ensures forall c :: c in TrimLeft(s) ==> c in s
    ensures TrimLeft(s) != "" ==> !IsSpace(TrimLeft(s)[0])
  {
    if s != "" && IsSpace(s[0]) {
      TrimLeftShortens(s[1..]);
    }
  }

  lemma {:induction false} TrimRightShortens(s: string)
    ensures |TrimRight(s)| <= |s| && (TrimRight(s) == s || |TrimRight(s)| < |s|)
    ensures forall c :: c in TrimRight(s) ==> c in s
    ensures TrimRight(s) != "" ==> !IsSpace(TrimRight(s)[|TrimRight(s)| - 1]) && TrimRight(s)[0] == s[0]
  {
    if s != "" && IsSpace(s[|s| - 1]) {
      TrimRightShortens(s[..|s| - 1]);
    }
  }

  /** What trimming leaves is trimmed, and made of what was there. */
  lemma TrimSpaceTrims(s: string)
    ensures TrimSpace(TrimSpace(s)) == TrimSpace(s)
    ensures forall c :: c in TrimSpace(s) ==> c in s
  {
    TrimLeftShortens(s);
    TrimRightShortens(TrimLeft(s));
  }

  /** A written line reads back as its entry. */
  lemma ParseMetaLine(e: Entry)
    requires KeyOk(e.0) && CleanValue(e.1)
    ensures var line := e.0 + ": " + e.1;
            '\n' !in line && DropReturn(line) == line && ParseLine(line) == Some(e)
  {
    var (k, v) := e;
    var line := k + ": " + v;
    if v != "" {
      TrimmedEnds(v);
      assert line[|line| - 1] == v[|v| - 1];
    } else {
      assert line[|line| - 1] == ' ';
    }
    assert line[..|k|] == k && line[|k|] == ':';
    FindAt(line, ':', |k|);
    assert line[|k| + 1..] == " " + v && (" " + v)[1..] == v;
    assert TrimLeft(" " + v) == TrimLeft(v);
    assert (k, v) == e;
  }

  /** With clean values, the reader gets exactly the entries before the first line over the limit. */
  lemma {:induction false} ReadCleanText(es: seq<Entry>)
    requires forall i :: 0 <= i < |es| ==> KeyOk(es[i].0) && CleanValue(es[i].1)
    ensures Entries(ScanLines(MetaText(es))) == Some(Fitting(es))
    decreases |es|
  {
    if es != [] {
      var e := es[0];
      var line, rest := e.0 + ": " + e.1, MetaText(es[1..]);
      assert MetaText(es) == line + "\n" + rest;
      ParseMetaLine(e);
      hide Utf8Size, ByteLength, ParseLine, CleanValue, TrimSpace;
      ScanLine(line, rest);
      if LineFits(e) {
        ReadCleanText(es[1..]);
        var lines := [line] + ScanLines(rest);
        assert lines[1..] == ScanLines(rest) && line != "";
      }
    }
  }

  /** Whatever text is read, the values read are clean. */
  lemma {:induction false} ReadValuesClean(text: string)
    requires Entries(ScanLines(text)).Some?
    ensures forall i :: 0 <= i < |Entries(ScanLines(text)).value| ==> CleanValue(Entries(ScanLines(text)).value[i].1)
    decreases |text|
  {
    if text != "" {
      var n := Find(text, '\n');
      var line := DropReturn(text[..n]);
      if ByteLength(text[..n]) < LINE_LIMIT {
        var rest := text[(if n < |text| then n + 1 else n)..];
        var lines := [line] + ScanLines(rest);
        assert lines[0] == line && lines[1..] == ScanLines(rest);
        ReadValuesClean(rest);
        if line != "" {
          var m := Find(line, ':');
          TrimSpaceTrims(line[m + 1..]);
        }
      }
    }
  }

  /** A file of entries reads back as those entries exactly when every value is clean and every line fits. */
  lemma MetaRoundTripIff(es: seq<Entry>)
    requires forall i :: 0 <= i < |es| ==> KeyOk(es[i].0)
    ensures Entries(ScanLines(MetaText(es))) == Some(es) <==>
      forall i :: 0 <= i < |es| ==> CleanValue(es[i].1) && LineFits(es[i])
  {
    hide ScanLines, Entries, CleanValue, LineFits, MetaText;
    if Entries(ScanLines(MetaText(es))) == Some(es) {
      ReadValuesClean(MetaText(es));
    }
    if forall i :: 0 <= i < |es| ==> CleanValue(es[i].1) {
      ReadCleanText(es);
      AllFit(es);
    }
  }

  lemma {:induction false} AllFit(es: seq<Entry>)
    ensures |Fitting(es)| <= |es|
    ensures Fitting(es) == es <==> forall i :: 0 <= i < |es| ==> LineFits(es[i])
  {
    hide LineFits;
    if es != [] {
      AllFit(es[1..]);
      assert es == [es[0]] + es[1..];
      if forall i :: 0 <= i < |es[1..]| ==> LineFits(es[1..][i]) {
        assert forall i :: 1 <= i < |es| ==> es[i] == es[1..][i - 1];
      }
      if LineFits(es[0]) && Fitting(es) == es {
        assert Fitting(es)[1..] == Fitting(es[1..]);
      }
      if forall i :: 0 <= i < |es| ==> LineFits(es[i]) {
        assert forall i :: 0 <= i < |es[1..]| ==> es[1..][i] == es[i + 1];
      }
    }
  }

  lemma {:induction false} LastValueOf(es: seq<Entry>, key: string, k: nat)
    requires k < |es| && es[k].0 == key && forall i :: k < i < |es| ==> es[i].0 != key
    ensures LastValue(es, key) == es[k].1
  {
    if k < |es| - 1 {
      LastValueOf(es[..|es| - 1], key, k);
    }
  }

  lemma {:induction false} LastValueNone(es: seq<Entry>, key: string)
    requires forall i :: 0 <= i < |es| ==> es[i].0 != key
    ensures LastValue(es, key) == ""
  {
    if es != [] {
      LastValueNone(es[..|es| - 1], key);
    }
  }

  /** A session's file: its id and protocol, then any lines of other keys, in any order and number. */
  lemma SessionFileReads(id: string, protocol: string, rest: seq<Entry>)
    requires var es := [("id", id), ("protocol", protocol)] + rest;
             forall i :: 0 <= i < |es| ==> KeyOk(es[i].0) && CleanValue(es[i].1) && LineFits(es[i])
    requires forall i :: 0 <= i < |rest| ==> rest[i].0 != "id" && rest[i].0 != "protocol"
    ensures var es := [("id", id), ("protocol", protocol)] + rest;
            && Entries(ScanLines(MetaText(es))) == Some(es)
            && LastValue(es, "id") == id && LastValue(es, "protocol") == protocol
            && Values(es, "connection") == Values(rest, "connection")
  {
    hide KeyOk, CleanValue, LineFits, ScanLines, MetaText, Entries;
    var es := [("id", id), ("protocol", protocol)] + rest;
    MetaRoundTripIff(es);
    assert forall i :: 2 <= i < |es| ==> es[i] == rest[i - 2];
    LastValueOf(es, "id", 0);
    LastValueOf(es, "protocol", 1);
    ValuesShift(es, rest, 2, "connection");
  }

  lemma ValuesShift(es: seq<Entry>, rest: seq<Entry>, n: nat, key: string)
    requires n <= |es| && es[n..] == rest && forall i :: 0 <= i < n ==> es[i].0 != key
    ensures Values(es, key) == Values(rest, key)
  {
    forall v | v in Values(es, key) ensures v in Values(rest, key) {
      var i :| 0 <= i < |es| && es[i].0 == key && es[i].1 == v;
      assert rest[i - n] == es[i];
    }
    forall v | v in Values(rest, key) ensures v in Values(es, key) {
      var i :| 0 <= i < |rest| && rest[i].0 == key && rest[i].1 == v;
      assert es[i + n] == rest[i];
    }
  }

  /** A connection's file: its id, then channel, messages and requests lines as they come. */
  lemma ConnectionFileReads(id: string, rest: seq<Entry>)
    requires var es := [("id", id)] + rest;
             forall i :: 0 <= i < |es| ==> KeyOk(es[i].0) && CleanValue(es[i].1) && LineFits(es[i])
    requires forall i :: 0 <= i < |rest| ==> rest[i].0 != "id"
    ensures var es := [("id", id)] + rest;
            && Entries(ScanLines(MetaText(es))) == Some(es)
            && LastValue(es, "id") == id && Values(es, "channel") == Values(rest, "channel")
  {
    hide KeyOk, CleanValue, LineFits, ScanLines, MetaText, Entries;
    var es := [("id", id)] + rest;
    MetaRoundTripIff(es);
    assert forall i :: 1 <= i < |es| ==> es[i] == rest[i - 1];
    LastValueOf(es, "id", 0);
    ValuesShift(es, rest, 1, "channel");
  }

  lemma ChannelFileReads(id: string, typ: string, rest: seq<Entry>)
    requires var es := [("id", id), ("channelType", typ)] + rest;
             forall i :: 0 <= i < |es| ==> KeyOk(es[i].0) && CleanValue(es[i].1) && LineFits(es[i])
    requires forall i :: 0 <= i < |rest| ==> rest[i].0 != "id" && rest[i].0 != "channelType"
    ensures var es := [("id", id), ("channelType", typ)] + rest;
            && Entries(ScanLines(MetaText(es))) == Some(es)
            && LastValue(es, "id") == id && LastValue(es, "channelType") == typ
  {
    hide KeyOk, CleanValue, LineFits, ScanLines, MetaText, Entries;
    var es := [("id", id), ("channelType", typ)] + rest;
    MetaRoundTripIff(es);
    assert forall i :: 2 <= i < |es| ==> es[i] == rest[i - 2];
    LastValueOf(es, "id", 0);
    LastValueOf(es, "channelType", 1);
  }
}
