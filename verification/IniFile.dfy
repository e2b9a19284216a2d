/** The configuration file format: the line parser behind `iniparser_new`, the printer
    `iniparser_dump_ini`, and the proof that printing and parsing a dictionary gives it back. */
module IniFile {
  import opened CText
  import opened IniDictionary

  const ASCIILINESZ := 1024

  // ----- the helpers that walk one string -----

  /** strlwc lowers the first 1024 characters and drops the rest. */
  function Strlwc(s: string): string {
    Lower(if |s| > ASCIILINESZ then s[..ASCIILINESZ] else s)
  }

  method ComputeStrlwc(s: string) returns (l: string)
    ensures l == Strlwc(s)
  {
    l := "";
    var i := 0;
    while i < |s| && i < ASCIILINESZ
      invariant i <= |s| && i <= ASCIILINESZ && |l| == i
      invariant forall j | 0 <= j < i :: l[j] == ToLower(s[j])
    {
      l := l + [ToLower(s[i])];
      i := i + 1;
    }
  }

  method Strskp(s: string) returns (skip: nat)
    ensures skip == Blanks(s)
  {
    skip := 0;
    while skip < |s| && IsSpace(s[skip])
      invariant skip <= |s|
      invariant Blanks(s) == skip + Blanks(s[skip..])
    {
      assert s[skip..][1..] == s[skip + 1..];
      skip := skip + 1;
    }
  }

  method Strcrop(s: string) returns (l: string)
    ensures l == Crop(s)
  {
    var last := |s|;
    while last > 0
      invariant 0 <= last <= |s|
      invariant Crop(s[..last]) == Crop(s)
    {
      if !IsSpace(s[last - 1]) {
        break;
      }
      assert s[..last][..last - 1] == s[..last - 1];
      last := last - 1;
    }
    l := s[..last];
  }

  // ----- one line -----

  datatype Line = Skip | Section(name: string) | Entry(key: string, val: string)

  /** sscanf "[%[^]]". */
  function ScanSection(s: string): Option<string> {
    if s == [] || s[0] != '[' then None
    else
      var n := Cspn(s[1..], {']'});
      if n == 0 then None else Some(s[1..1 + n])
  }

  /** The value after `q` up to the next `q`, as in sscanf "\"%[^\"]\"". */
  function ScanQuoted(s: string, q: char): Option<string> {
    if s == [] || s[0] != q then None
    else
      var n := Cspn(s[1..], {q});
      if n == 0 then None else Some(s[1..1 + n])
  }

  /** sscanf "%[^;#]". */
  function ScanPlain(s: string): Option<string> {
    var n := Cspn(s, {';', '#'});
    if n == 0 then None else Some(s[..n])
  }

  /** The first of the three value patterns that matches, with the empty-quotes case and cropping. */
  function ScanValue(s: string): Option<string> {
    var raw := if ScanQuoted(s, '"').Some? then ScanQuoted(s, '"')
               else if ScanQuoted(s, '\'').Some? then ScanQuoted(s, '\'')
               else ScanPlain(s);
    if raw.None? then None
    else if raw.value == "\"\"" || raw.value == "''" then Some("")
    else Some(Crop(raw.value))
  }

  function Skipped(s: string): string {
    s[Blanks(s)..]
  }

  /** An entry from the text before the equals sign and the text after it. */
  function MakeEntry(left: string, right: string): Line {
    var val := ScanValue(Skipped(right));
    if val.Some? then Entry(Strlwc(Crop(left)), val.value) else Skip
  }

  function ParseEntry(s: string): Line {
    var n := Cspn(s, {'='});
    if 0 < n < |s| then MakeEntry(s[..n], s[n + 1..]) else Skip
  }

  function ParseLine(lin: string): Line {
    var s := Skipped(lin);
    if s == [] || s[0] == ';' || s[0] == '#' then Skip
    else if ScanSection(s).Some? then Section(Strlwc(ScanSection(s).value))
    else ParseEntry(s)
  }

  // ----- what a line means, character by character -----

  predicate OnlyBlanks(s: string) {
    forall c | c in s :: c in BLANKS
  }

  /** Neither empty nor with a blank at either end. */
  predicate Trimmed(s: string) {
    s != "" && s[0] !in BLANKS && s[|s| - 1] !in BLANKS
  }

  lemma TrimmedEnds(s: string)
    requires Trimmed(s)
    ensures !IsSpace(s[0]) && !IsSpace(s[|s| - 1])
  {
  }

  /** A name that is not taken for a comment or a section and ends before the equals sign. */
  predicate KeyName(name: string) {
    name != "" && !IsSpace(name[0]) && !IsSpace(name[|name| - 1]) && name[0] !in {';', '#', '['} && '=' !in name
  }

  /** A line made of blanks, a name, blanks, an equals sign and a remainder. */
  lemma KeySplits(lead: string, name: string, gap: string, r: string)
    requires KeyName(name) && OnlyBlanks(lead) && OnlyBlanks(gap)
    ensures ParseLine(lead + (name + gap + "=" + r)) == MakeEntry(name + gap, r)
  {
    var key := name + gap;
    var s := key + "=" + r;
    assert s[0] == name[0];
    AllBlank(lead, "");
    BlanksOf(lead, s);
    assert '=' !in key by {
      assert '=' !in name && '=' !in BLANKS;
    }
    assert forall i | 0 <= i < |key| :: s[i] == key[i] && key[i] in key;
    CspnIs(s, {'='}, |key|);
    assert s[|key| + 1..] == r && s[..|key|] == key;
  }

  /** `b` is `a` with the 26 capital letters of ASCII made small. */
  predicate Lowers(a: string, b: string) {
    && |a| == |b|
    && forall i | 0 <= i < |a| :: b[i] as int == a[i] as int + if 65 <= a[i] as int <= 90 then 32 else 0
  }

  lemma StrlwcLowers(s: string)
    ensures Lowers(if |s| > 1024 then s[..1024] else s, Strlwc(s))
  {
    forall i | 0 <= i < |Strlwc(s)|
      ensures Strlwc(s)[i] as int == s[i] as int + if 65 <= s[i] as int <= 90 then 32 else 0
    {
      LowersOne(s[i]);
    }
  }

  lemma LowersOne(c: char)
    ensures ToLower(c) as int == c as int + if 65 <= c as int <= 90 then 32 else 0
  {
  }

  /** The key of a line is its name in small letters, without the blanks around it. */
  lemma KeyReads(lead: string, name: string, gap: string, r: string, value: string) returns (key: string)
    requires KeyName(name) && |name| <= 1024 && OnlyBlanks(lead) && OnlyBlanks(gap)
    ensures Lowers(name, key)
    ensures ScanValue(Skipped(r)) == Some(value) ==>
              ParseLine(lead + (name + gap + "=" + r)) == Entry(key, value)
  {
    key := Strlwc(name);
    StrlwcLowers(name);
    KeySplits(lead, name, gap, r);
    AllBlank(gap, "");
    CropBlanks(name, gap);
  }

  lemma CropBlanks(core: string, blanks: string)
    requires (core != "" ==> !IsSpace(core[|core| - 1])) && forall c | c in blanks :: IsSpace(c)
    ensures Crop(core + blanks) == core
  {
    var s := core + blanks;
    assert forall i | |core| <= i < |s| :: s[i] == blanks[i - |core|] && blanks[i - |core|] in blanks;
    CropIs(s, |core|);
    assert s[..|core|] == core;
  }

  lemma SkippedBlanks(blanks: string, s: string)
    requires OnlyBlanks(blanks) && s != "" && !IsSpace(s[0])
    ensures Skipped(blanks + s) == s
  {
    AllBlank(blanks, "");
    BlanksOf(blanks, s);
  }

  lemma PlainScanned(value: string, after: string, tail: string)
    requires Trimmed(value) && value[0] != '"' && value[0] != '\'' && ';' !in value && '#' !in value
    requires OnlyBlanks(after) && (tail == "" || tail[0] == ';' || tail[0] == '#')
    ensures ScanValue(value + after + tail) == Some(value)
  {
    var raw := value + after;
    var s := raw + tail;
    TrimmedEnds(value);
    assert ';' !in after && '#' !in after by {
      assert ';' !in BLANKS && '#' !in BLANKS;
    }
    assert s[0] == value[0];
    assert forall i | 0 <= i < |raw| :: s[i] == raw[i] && raw[i] in raw;
    CspnIs(s, {';', '#'}, |raw|);
    assert s[..|raw|] == raw && raw[0] == value[0];
    AllBlank(after, "");
    CropBlanks(value, after);
  }

  /** A value without quotes ends before a comment or at the end of the line, and loses the blanks around it. */
  lemma PlainValueReads(lead: string, name: string, gap: string, gap2: string, value: string, after: string,
                        tail: string)
      returns (key: string)
    requires KeyName(name) && |name| <= 1024 && OnlyBlanks(lead) && OnlyBlanks(gap) && OnlyBlanks(gap2)
    requires Trimmed(value) && value[0] != '"' && value[0] != '\'' && ';' !in value && '#' !in value
    requires OnlyBlanks(after) && (tail == "" || tail[0] == ';' || tail[0] == '#')
    ensures Lowers(name, key)
    ensures ParseLine(lead + (name + gap + "=" + (gap2 + (value + after + tail)))) == Entry(key, value)
  {
    TrimmedEnds(value);
    assert (value + after + tail)[0] == value[0];
    SkippedBlanks(gap2, value + after + tail);
    PlainScanned(value, after, tail);
    key := KeyReads(lead, name, gap, gap2 + (value + after + tail), value);
  }

  lemma QuotedScanned(q: char, v: string, tail: string)
    requires (q == '"' || q == '\'') && v != "" && q !in v && (tail == "" || tail[0] == q)
    ensures ScanValue([q] + v + tail) == if v == "\"\"" || v == "''" then Some("") else Some(Crop(v))
  {
    var s := [q] + v + tail;
    var rest := v + tail;
    assert s[1..] == rest;
    assert forall i | 0 <= i < |v| :: rest[i] == v[i] && v[i] in v;
    CspnIs(rest, {q}, |v|);
    assert s[1..1 + |v|] == v;
  }

  /** A quoted value is what stands between the quotes, or up to the end of the line if they are not closed, comment
      characters and leading blanks included and without trailing blanks; two quotes inside other quotes are nothing. */
  lemma QuotedValueReads(lead: string, name: string, gap: string, gap2: string, q: char, value: string, blanks: string,
                         tail: string)
      returns (key: string)
    requires KeyName(name) && |name| <= 1024 && OnlyBlanks(lead) && OnlyBlanks(gap) && OnlyBlanks(gap2)
    requires (q == '"' || q == '\'') && value + blanks != "" && q !in value
    requires OnlyBlanks(blanks) && (value != "" ==> value[|value| - 1] !in BLANKS)
    requires tail == "" || tail[0] == q
    ensures Lowers(name, key)
    ensures ParseLine(lead + (name + gap + "=" + (gap2 + ([q] + (value + blanks) + tail)))) ==
            Entry(key, if value + blanks == "\"\"" || value + blanks == "''" then "" else value)
  {
    var s := [q] + (value + blanks) + tail;
    var v := value + blanks;
    assert s[0] == q && q !in BLANKS;
    SkippedBlanks(gap2, s);
    assert q !in v;
    QuotedScanned(q, v, tail);
    AllBlank(blanks, "");
    LastNotBlank(value);
    CropBlanks(value, blanks);
    key := KeyReads(lead, name, gap, gap2 + s, if v == "\"\"" || v == "''" then "" else value);
  }

  lemma LastNotBlank(value: string)
    requires value != "" ==> value[|value| - 1] !in BLANKS
    ensures value != "" ==> !IsSpace(value[|value| - 1])
  {
  }

  lemma SectionScanned(name: string, tail: string)
    requires name != "" && ']' !in name && (tail == "" || tail[0] == ']')
    ensures ScanSection("[" + (name + tail)) == Some(name)
  {
    var rest := name + tail;
    assert ("[" + rest)[1..] == rest;
    assert forall i | 0 <= i < |name| :: rest[i] == name[i] && name[i] in name;
    CspnIs(rest, {']'}, |name|);
    assert ("[" + rest)[1..1 + |name|] == name;
  }

  /** A section line opens the section named between the brackets, or up to the end of the line if they are not closed,
      in small letters. */
  lemma SectionReads(lead: string, name: string, tail: string) returns (sec: string)
    requires OnlyBlanks(lead) && name != "" && |name| <= 1024 && ']' !in name && (tail == "" || tail[0] == ']')
    ensures Lowers(name, sec) && ParseLine(lead + ("[" + (name + tail))) == Section(sec)
  {
    var s := "[" + (name + tail);
    assert s[0] == '[';
    SkippedBlanks(lead, s);
    SectionScanned(name, tail);
    assert ScanSection(s) == Some(name) && Skipped(lead + s) == s;
    StrlwcLowers(name);
    sec := Strlwc(name);
  }

  /** Exactly the lines that bind nothing: blank ones; comments; and those that are no section line and lack a name, an
      equals sign or a value. */
  predicate BindsNothing(lin: string) {
    var s := lin[Blanks(lin)..];
    || s == "" || s[0] == ';' || s[0] == '#'
    || (!(|s| > 1 && s[0] == '[' && s[1] != ']') &&
        var n := Cspn(s, {'='});
        n == 0 || n == |s| || NoValue(s[n + 1..]))
  }

  predicate NoValue(r: string) {
    var v := r[Blanks(r)..];
    v == "" || v[0] == ';' || v[0] == '#'
  }

  lemma NoValueIff(r: string)
    ensures ScanValue(Skipped(r)).None? <==> NoValue(r)
  {
  }

  lemma SkipIff(lin: string)
    ensures ParseLine(lin) == Skip <==> BindsNothing(lin)
  {
    var s := Skipped(lin);
    var n := Cspn(s, {'='});
    if n < |s| {
      NoValueIff(s[n + 1..]);
    }
    assert ScanSection(s).Some? <==> |s| > 1 && s[0] == '[' && s[1] != ']';
  }

  // ----- the whole file -----

  /** fgets: up to and including the newline, and at most 1023 characters. */
  function LineLength(text: string): (n: nat)
    requires text != []
    ensures 0 < n <= |text|
  {
    var n := Cspn(text, {'\n'});
    var m := if n < |text| then n + 1 else n;
    if m > ASCIILINESZ - 1 then ASCIILINESZ - 1 else m
  }

  datatype State = State(sec: string, m: Bindings)

  function Step(st: State, line: Line): State {
    match line
    case Skip => st
    case Section(name) => State(name, st.m[name := None])
    case Entry(k, v) => st.(m := st.m[st.sec + ":" + k := Some(v)])
  }

  function ParseFrom(st: State, text: string): State
    decreases |text|
  {
    if text == [] then st
    else ParseFrom(Step(st, ParseLine(text[..LineLength(text)])), text[LineLength(text)..])
  }

  /** The body of the line loop: one line updates the section name and the dictionary. */
  method HandleLine(d: Dictionary, sec: string, lin: string) returns (sec': string)
    requires d.Valid()
    modifies d.Repr()
    ensures d.Valid() && fresh(d.Repr() - old(d.Repr()))
    ensures State(sec', d.bindings) == Step(State(sec, old(d.bindings)), ParseLine(lin))
  {
    sec' := sec;
    var skip := Strskp(lin);
    var s := lin[skip..];
    if s == [] || s[0] == ';' || s[0] == '#' {
      return;
    }
    var name := ScanSection(s);
    if name.Some? {
      sec' := HandleSection(d, name.value);
    } else {
      HandleEntry(d, sec, s);
    }
  }

  method HandleSection(d: Dictionary, name: string) returns (sec: string)
    requires d.Valid()
    modifies d.Repr()
    ensures d.Valid() && fresh(d.Repr() - old(d.Repr()))
    ensures sec == Strlwc(name) && d.bindings == old(d.bindings)[sec := None]
  {
    sec := ComputeStrlwc(name);
    d.Set(sec, None);
  }

  method HandleEntry(d: Dictionary, sec: string, s: string)
    requires d.Valid()
    modifies d.Repr()
    ensures d.Valid() && fresh(d.Repr() - old(d.Repr()))
    ensures State(sec, d.bindings) == Step(State(sec, old(d.bindings)), ParseEntry(s))
  {
    var eq := Cspn(s, {'='});
    if 0 < eq < |s| {
      SetEntry(d, sec, s[..eq], s[eq + 1..]);
    }
  }

  method SetEntry(d: Dictionary, sec: string, left: string, right: string)
    requires d.Valid()
    modifies d.Repr()
    ensures d.Valid() && fresh(d.Repr() - old(d.Repr()))
    ensures State(sec, d.bindings) == Step(State(sec, old(d.bindings)), MakeEntry(left, right))
  {
    var skip := Strskp(right);
    var val := ScanValue(right[skip..]);
    if val.Some? {
      var key := Strcrop(left);
      key := ComputeStrlwc(key);
      assert MakeEntry(left, right) == Entry(key, val.value);
      Bind(d, sec, key, val.value);
    }
  }

  /** iniparser_add_entry for an entry. */
  method Bind(d: Dictionary, sec: string, key: string, val: string)
    requires d.Valid()
    modifies d.Repr()
    ensures d.Valid() && fresh(d.Repr() - old(d.Repr()))
    ensures d.bindings == old(d.bindings)[sec + ":" + key := Some(val)]
  {
    d.Set(sec + ":" + key, Some(val));
  }

  /** iniparser_new on the text of a file. */
  method Parse(text: string) returns (d: Dictionary)
    ensures d.Valid() && fresh(d.Repr())
    ensures d.bindings == ParseFrom(State("", map[]), text).m
  {
    d := new Dictionary(0);
    var sec, rest := "", text;
    while rest != []
      invariant d.Valid() && fresh(d.Repr())
      invariant ParseFrom(State(sec, d.bindings), rest) == ParseFrom(State("", map[]), text)
      decreases |rest|
    {
      var n := LineLength(rest);
      sec := HandleLine(d, sec, rest[..n]);
      rest := rest[n..];
    }
  }

  // ----- printing -----

  function Spaces(n: nat): (s: string)
    ensures |s| == n && forall i | 0 <= i < n :: s[i] == ' '
  {
    seq(n, _ => ' ')
  }

  /** printf "%-30s". */
  function Pad(s: string): string {
    s + Spaces(Padding(s))
  }

  function Padding(s: string): nat {
    if |s| < 30 then 30 - |s| else 0
  }

  function EntryLine(name: string, v: string): string {
    Pad(name) + " = " + v + "\n"
  }

  function SectionLine(sec: string): string {
    "[" + sec + "]\n"
  }

  function Text(v: Value, absent: string): string {
    if v.Some? then v.value else absent
  }

  /** The entries of one section, in slot order. */
  function EntryLines(sec: string, keys: Slots, vals: seq<Value>): seq<string>
    requires |keys| == |vals|
  {
    if keys == [] then []
    else
      var last := |keys| - 1;
      EntryLines(sec, keys[..last], vals[..last]) +
      if keys[last].Some? && sec + ":" <= keys[last].value
      then [EntryLine(keys[last].value[|sec| + 1..], Text(vals[last], ""))]
      else []
  }

  function SectionLines(secs: seq<string>, keys: Slots, vals: seq<Value>): seq<string>
    requires |keys| == |vals|
  {
    if secs == [] then []
    else
      var last := secs[|secs| - 1];
      SectionLines(secs[..|secs| - 1], keys, vals) +
      (["\n", SectionLine(last)] + EntryLines(last, keys, vals))
  }

  /** Without any section every key is printed as it is. */
  function BareLines(keys: Slots, vals: seq<Value>): seq<string>
    requires |keys| == |vals|
  {
    if keys == [] then []
    else
      var last := |keys| - 1;
      BareLines(keys[..last], vals[..last]) +
      if keys[last].Some? then [keys[last].value + " = " + Text(vals[last], "(null)") + "\n"] else []
  }

  function DumpLines(keys: Slots, vals: seq<Value>): seq<string>
    requires |keys| == |vals|
  {
    if Sections(keys) == [] then BareLines(keys, vals)
    else SectionLines(Sections(keys), keys, vals) + ["\n"]
  }

  /** The dump of a dictionary without sections. */
  method DumpBare(d: Dictionary) returns (out: string)
    requires d.size == d.key.Length == d.val.Length
    ensures out == Concat(BareLines(d.key[..], d.val[..]))
  {
    out := "";
    ghost var lines: seq<string> := [];
    for i := 0 to d.size
      invariant lines == BareLines(d.key[..i], d.val[..i]) && out == Concat(lines)
    {
      assert d.key[..i + 1][..i] == d.key[..i] && d.val[..i + 1][..i] == d.val[..i];
      if d.key[i].Some? {
        var line := d.key[i].value + " = " + Text(d.val[i], "(null)") + "\n";
        ConcatLast(lines, line);
        out := out + line;
        lines := lines + [line];
      }
    }
    assert d.key[..d.size] == d.key[..] && d.val[..d.size] == d.val[..];
  }

  /** The sections in turn. */
  method DumpSections(d: Dictionary, nsec: nat) returns (out: string)
    requires d.size == d.key.Length == d.val.Length && nsec == |Sections(d.key[..])|
    ensures out == Concat(SectionLines(Sections(d.key[..]), d.key[..], d.val[..]))
  {
    out := "";
    ghost var lines: seq<string> := [];
    ghost var secs := Sections(d.key[..]);
    for i := 0 to nsec
      invariant lines == SectionLines(secs[..i], d.key[..], d.val[..]) && out == Concat(lines)
    {
      assert secs[..i + 1][..i] == secs[..i];
      var secname := d.SectionName(i);
      assert secname == Some(secs[i]);
      var body := DumpSection(d, secname.value);
      ConcatSplits(lines, ["\n", SectionLine(secs[i])] + EntryLines(secs[i], d.key[..], d.val[..]));
      out := out + body;
      lines := lines + (["\n", SectionLine(secs[i])] + EntryLines(secs[i], d.key[..], d.val[..]));
    }
    assert secs[..nsec] == secs;
  }

  /** iniparser_dump_ini; the result is what is written to the file. */
  method DumpIni(d: Dictionary) returns (out: string)
    requires d.size == d.key.Length == d.val.Length
    ensures out == Concat(DumpLines(d.key[..], d.val[..]))
  {
    var nsec := d.CountSections();
    if nsec < 1 {
      out := DumpBare(d);
    } else {
      out := DumpSections(d, nsec);
      ConcatLast(SectionLines(Sections(d.key[..]), d.key[..], d.val[..]), "\n");
      out := out + "\n";
    }
  }

  method DumpSection(d: Dictionary, sec: string) returns (out: string)
    requires d.size == d.key.Length == d.val.Length
    ensures out == Concat(["\n", SectionLine(sec)] + EntryLines(sec, d.key[..], d.val[..]))
  {
    out := "\n" + SectionLine(sec);
    var keym := sec + ":";
    ghost var head := ["\n", SectionLine(sec)];
    assert Concat(head) == out by {
      ConcatLast(["\n"], SectionLine(sec));
      ConcatLast([], "\n");
      assert ["\n"] + [SectionLine(sec)] == head && [] + ["\n"] == ["\n"];
    }
    ghost var lines: seq<string> := [];
    assert head + lines == head;
    for j := 0 to d.size
      invariant lines == EntryLines(sec, d.key[..j], d.val[..j]) && out == Concat(head + lines)
    {
      assert d.key[..j + 1][..j] == d.key[..j] && d.val[..j + 1][..j] == d.val[..j];
      if d.key[j].Some? && keym <= d.key[j].value {
        var line := EntryLine(d.key[j].value[|sec| + 1..], Text(d.val[j], ""));
        ConcatLast(head + lines, line);
        assert head + lines + [line] == head + (lines + [line]);
        out := out + line;
        lines := lines + [line];
      }
    }
    assert d.key[..d.size] == d.key[..] && d.val[..d.size] == d.val[..];
  }

  // ----- reading one printed line back -----

  /** Exactly the values that survive a printed line: non-empty, no blank at either end, no comment
      character, and not beginning with a quote unless the same quote follows at once. */
  predicate Survives(v: string) {
    && v != ""
    && !IsSpace(v[0]) && !IsSpace(v[|v| - 1])
    && ';' !in v && '#' !in v
    && (v[0] == '"' || v[0] == '\'' ==> |v| > 1 && v[1] == v[0])
  }

  lemma CropNewline(v: string)
    ensures |Crop(v + "\n")| <= |v|
    ensures v != "" && !IsSpace(v[|v| - 1]) ==> Crop(v + "\n") == v
    ensures v != "" && IsSpace(v[|v| - 1]) ==> |Crop(v + "\n")| < |v|
  {
    var s := v + "\n";
    assert s[..|s| - 1] == v;
    assert Crop(s) == Crop(v);
  }

  lemma SurvivorIsScanned(v: string)
    requires Survives(v)
    ensures ScanValue(v + "\n") == Some(v)
  {
    var s := v + "\n";
    assert s[0] == v[0];
    assert forall q | q == '"' || q == '\'' :: ScanQuoted(s, q).None? by {
      assert v[0] == '"' || v[0] == '\'' ==> s[1] == v[0];
    }
    assert Cspn(s, {';', '#'}) == |s| by {
      assert forall i | 0 <= i < |v| :: s[i] == v[i] && v[i] in v;
    }
    assert s[..|s|] == s && s[|s| - 1] == '\n';
    CropNewline(v);
  }

  /** Anything scanned from `s`, a text ending in a newline, is shorter than `s`; when it is shorter by
      one character only, it is what Survives describes. */
  lemma ScannedIsShorter(s: string)
    requires s != "" && s[|s| - 1] == '\n' && ScanValue(s).Some?
    ensures |ScanValue(s).value| < |s|
    ensures |ScanValue(s).value| == |s| - 1 && !IsSpace(s[0]) ==> Survives(s[..|s| - 1])
  {
    if ScanQuoted(s, '"').Some? || ScanQuoted(s, '\'').Some? {
      QuotedIsShorter(s, if ScanQuoted(s, '"').Some? then '"' else '\'');
    } else {
      PlainIsShorter(s);
    }
  }

  lemma PlainIsShorter(s: string)
    requires s != "" && s[|s| - 1] == '\n' && ScanValue(s).Some?
    requires ScanQuoted(s, '"').None? && ScanQuoted(s, '\'').None?
    ensures |ScanValue(s).value| < |s|
    ensures |ScanValue(s).value| == |s| - 1 && !IsSpace(s[0]) ==> Survives(s[..|s| - 1])
  {
    var v, n := s[..|s| - 1], Cspn(s, {';', '#'});
    assert s == v + "\n";
    CropNewline(v);
    if n == |s| {
      assert s[..n] == s;
      assert forall i | 0 <= i < |v| :: v[i] == s[i];
      if v != "" && (s[0] == '"' || s[0] == '\'') {
        assert Cspn(s[1..], {s[0]}) == 0;
        assert s[1..][0] == s[0];
      }
    }
  }

  lemma QuotedIsShorter(s: string, q: char)
    requires s != "" && s[|s| - 1] == '\n' && q != '\n' && ScanQuoted(s, q).Some?
    ensures |Crop(ScanQuoted(s, q).value)| < |s| - 1
  {
    var n := Cspn(s[1..], {q});
    var raw := s[1..1 + n];
    if n == |s| - 1 {
      assert raw == raw[..n - 1] + "\n";
      CropNewline(raw[..n - 1]);
    }
  }

  /** Key names that a printed line keeps. */
  predicate GoodName(name: string) {
    && name != "" && |name| <= ASCIILINESZ
    && IsLower(name) && '\n' !in name && '=' !in name
    && !IsSpace(name[0]) && !IsSpace(name[|name| - 1])
    && name[0] != ';' && name[0] != '#' && name[0] != '['
  }

  predicate GoodSection(sec: string) {
    && sec != "" && |sec| + 3 <= ASCIILINESZ - 1
    && IsLower(sec) && '\n' !in sec && ']' !in sec && ':' !in sec
  }

  lemma KeyLine(name: string, n: nat, r: string)
    requires GoodName(name)
    ensures ParseLine(name + Spaces(n) + "=" + r) == MakeEntry(name + Spaces(n), r)
  {
    var s := name + Spaces(n) + "=" + r;
    KeySplits("", name, Spaces(n), r);
    assert "" + s == s;
  }

  lemma NameIsKept(name: string, n: nat)
    requires GoodName(name)
    ensures Strlwc(Crop(name + Spaces(n))) == name
  {
    var key := name + Spaces(n);
    CropIs(key, |name|);
    assert key[..|name|] == name;
    LowerFixesLower(name);
  }

  /** The value text of a printed entry gives the value back exactly when it is one that survives. */
  lemma ValueReadsBack(v: string)
    ensures ScanValue(Skipped(" " + v + "\n")) == Some(v) <==> Survives(v)
  {
    var r := " " + v + "\n";
    var s := Skipped(r);
    assert r[1..] == v + "\n";
    assert Blanks(r) == 1 + Blanks(v + "\n");
    if Survives(v) {
      assert (v + "\n")[0] == v[0];
      assert s == v + "\n";
      SurvivorIsScanned(v);
    } else if s != "" && ScanValue(s).Some? {
      ScannedIsShorter(s);
      assert |s| == |v| + 1 ==> s[..|s| - 1] == v;
    }
  }

  /** A printed entry reads back as the same entry exactly when its value is one that survives. */
  lemma EntryReadsBack(name: string, v: string)
    requires GoodName(name)
    ensures ParseLine(EntryLine(name, v)) == Entry(name, v) <==> Survives(v)
  {
    var n, r := Padding(name) + 1, " " + v + "\n";
    EntryLineShape(name, v);
    KeyLine(name, n, r);
    ValueReadsBack(v);
    MadeEntry(name, n, r, v);
  }

  lemma EntryLineShape(name: string, v: string)
    ensures EntryLine(name, v) == name + Spaces(Padding(name) + 1) + "=" + (" " + v + "\n")
  {
    assert Spaces(Padding(name)) + " " == Spaces(Padding(name) + 1);
  }

  lemma MadeEntry(name: string, n: nat, r: string, v: string)
    requires GoodName(name)
    ensures MakeEntry(name + Spaces(n), r) == Entry(name, v) <==> ScanValue(Skipped(r)) == Some(v)
  {
    NameIsKept(name, n);
  }

  /** The special case for empty quotes is reached only when nothing, not even a newline, follows the
      quotes before the end of the line or a comment. */
  lemma EmptyQuotes(name: string, tail: string)
    requires GoodName(name)
    ensures ParseLine(name + " = \"\"" + tail) == Entry(name, "") <==>
            tail == "" || tail[0] == ';' || tail[0] == '#'
  {
    assert name + " = \"\"" + tail == name + Spaces(1) + "=" + (" \"\"" + tail);
    KeyLine(name, 1, " \"\"" + tail);
    QuotesScanned(tail);
    MadeEntry(name, 1, " \"\"" + tail, "");
  }

  lemma QuotesScanned(tail: string)
    ensures ScanValue(Skipped(" \"\"" + tail)) == Some("") <==> tail == "" || tail[0] == ';' || tail[0] == '#'
  {
    var s := "\"\"" + tail;
    assert (" \"\"" + tail)[1..] == s && Blanks(s) == 0;
    assert Skipped(" \"\"" + tail) == s;
    assert s[1..][0] == '"' && Cspn(s[1..], {'"'}) == 0;
    var n := Cspn(s, {';', '#'});
    assert s[1..] == "\"" + tail && s[2..] == tail;
    assert n == 2 + Cspn(tail, {';', '#'});
    if n == 2 {
      assert s[..2] == "\"\"";
    } else {
      assert !IsSpace(s[..n][0]);
    }
  }

  lemma SectionReadsBack(sec: string)
    requires GoodSection(sec)
    ensures ParseLine(SectionLine(sec)) == Section(sec)
  {
    var s := SectionLine(sec);
    assert s[0] == '[' && Blanks(s) == 0 && s[0..] == s;
    assert s[1..] == sec + "]\n";
    assert forall i | 0 <= i < |sec| :: s[1..][i] == sec[i] && sec[i] in sec;
    CspnIs(s[1..], {']'}, |sec|);
    assert s[1..1 + |sec|] == sec;
    LowerFixesLower(sec);
  }


  // ----- reading a whole dump back -----

  /** What a dictionary must look like for its dump to be loadable: at least one section; section keys
      bound to NULL; every other key belonging to a present section, with a name and a value that a
      printed line keeps, in a line that fgets returns in one piece. */
  ghost predicate Dumpable(m: Bindings) {
    && (exists s :: s in m && ':' !in s)
    && (forall k | k in m :: if ':' in k then DumpableEntry(m, k) else GoodSection(k) && m[k] == None)
  }

  ghost predicate DumpableEntry(m: Bindings, k: string)
    requires k in m
  {
    var c := Cspn(k, {':'});
    && c < |k| && k[..c] in m
    && GoodName(k[c + 1..])
    && m[k].Some? && Survives(m[k].value) && '\n' !in m[k].value
    && |EntryLine(k[c + 1..], m[k].value)| <= ASCIILINESZ - 1
  }

  /** A line that fgets returns whole. */
  predicate GoodLine(l: string) {
    0 < |l| <= ASCIILINESZ - 1 && l[|l| - 1] == '\n' && '\n' !in l[..|l| - 1]
  }

  function Fold(st: State, lines: seq<string>): State
    decreases |lines|
  {
    if lines == [] then st else Fold(Step(st, ParseLine(lines[0])), lines[1..])
  }

  lemma {:induction false} FoldSplits(st: State, a: seq<string>, b: seq<string>)
    ensures Fold(st, a + b) == Fold(Fold(st, a), b)
    decreases |a|
  {
    if a == [] {
      assert a + b == b;
    } else {
      assert (a + b)[0] == a[0] && (a + b)[1..] == a[1..] + b;
      FoldSplits(Step(st, ParseLine(a[0])), a[1..], b);
    }
  }

  lemma FirstLine(l: string, rest: string)
    requires GoodLine(l)
    ensures l + rest != [] && LineLength(l + rest) == |l|
  {
    var s := l + rest;
    assert forall i | 0 <= i < |l| - 1 :: s[i] == l[..|l| - 1][i];
    CspnIs(s, {'\n'}, |l| - 1);
  }

  /** Reading a text made of good lines is folding over the lines. */
  lemma {:induction false} ParseIsFold(st: State, lines: seq<string>)
    requires forall l | l in lines :: GoodLine(l)
    ensures ParseFrom(st, Concat(lines)) == Fold(st, lines)
    decreases |lines|
  {
    if lines != [] {
      var l, rest := lines[0], Concat(lines[1..]);
      FirstLine(l, rest);
      assert (l + rest)[..|l|] == l && (l + rest)[|l|..] == rest;
      ParseIsFold(Step(st, ParseLine(l)), lines[1..]);
    }
  }

  /** The pieces in which fgets returns a line: 1023 characters each, and the rest. */
  function Pieces(line: string): seq<string>
    decreases |line|
  {
    if |line| <= 1023 then [line] else [line[..1023]] + Pieces(line[1023..])
  }

  /** One newline, at the end. */
  predicate OneNewline(line: string) {
    line != "" && line[|line| - 1] == '\n' && '\n' !in line[..|line| - 1]
  }

  lemma LongLine(line: string, rest: string)
    requires OneNewline(line) && |line| > 1023
    ensures var s := line + rest;
            LineLength(s) == 1023 && s[..1023] == line[..1023] && s[1023..] == line[1023..] + rest
    ensures OneNewline(line[1023..])
  {
    var s, front := line + rest, line[..|line| - 1];
    assert forall i | 0 <= i < |front| :: s[i] == front[i] && front[i] in front;
    CspnIs(s, {'\n'}, |line| - 1);
    var tail := line[1023..];
    assert tail[..|tail| - 1] == front[1023..];
  }

  /** A line of any length is read piece by piece, each as a line of its own. */
  lemma {:induction false} LineIsFold(st: State, line: string, rest: string)
    requires OneNewline(line)
    ensures ParseFrom(st, line + rest) == ParseFrom(Fold(st, Pieces(line)), rest)
    decreases |line|
  {
    if |line| <= 1023 {
      FirstLine(line, rest);
      assert (line + rest)[..|line|] == line && (line + rest)[|line|..] == rest;
      FoldOne(st, line);
    } else {
      var first := line[..1023];
      LongLine(line, rest);
      LineIsFold(Step(st, ParseLine(first)), line[1023..], rest);
      FoldSplits(st, [first], Pieces(line[1023..]));
      FoldOne(st, first);
    }
  }

  lemma FoldOne(st: State, line: string)
    ensures Fold(st, [line]) == Step(st, ParseLine(line))
  {
    assert [line][1..] == [];
  }

  predicate AllBindNothing(lines: seq<string>) {
    forall l | l in lines :: BindsNothing(l)
  }

  lemma {:induction false} SkippedFold(st: State, lines: seq<string>)
    requires AllBindNothing(lines)
    ensures Fold(st, lines) == st
    decreases |lines|
  {
    if lines != [] {
      assert lines[0] in lines && forall l | l in lines[1..] :: l in lines;
      SkipIff(lines[0]);
      SkippedFold(st, lines[1..]);
    }
  }

  lemma {:induction false} FoldGrows(st: State, lines: seq<string>)
    ensures st.m.Keys <= Fold(st, lines).m.Keys
    decreases |lines|
  {
    if lines != [] {
      FoldGrows(Step(st, ParseLine(lines[0])), lines[1..]);
    }
  }

  lemma BoundSomething(st: State, line: Line) returns (k: string)
    requires line != Skip
    ensures k in Step(st, line).m
  {
    match line
    case Section(name) => k := name;
    case Entry(x, _) => k := st.sec + ":" + x;
  }

  lemma {:induction false} SomethingBound(st: State, lines: seq<string>) returns (k: string)
    requires !AllBindNothing(lines)
    ensures k in Fold(st, lines).m
    decreases |lines|
  {
    var next := Step(st, ParseLine(lines[0]));
    assert lines == [lines[0]] + lines[1..];
    SkipIff(lines[0]);
    if ParseLine(lines[0]) == Skip {
      k := SomethingBound(next, lines[1..]);
    } else {
      k := BoundSomething(st, ParseLine(lines[0]));
      FoldGrows(next, lines[1..]);
    }
  }

  /** A line makes no difference, wherever it stands, exactly when each of its pieces binds nothing. */
  lemma LineSkippedIff(line: string)
    requires OneNewline(line)
    ensures (forall st, rest :: ParseFrom(st, line + rest) == ParseFrom(st, rest)) <==> AllBindNothing(Pieces(line))
  {
    var start := State("", map[]);
    if AllBindNothing(Pieces(line)) {
      forall st, rest ensures ParseFrom(st, line + rest) == ParseFrom(st, rest) {
        LineIsFold(st, line, rest);
        SkippedFold(st, Pieces(line));
      }
    } else {
      var k := SomethingBound(start, Pieces(line));
      LineIsFold(start, line, "");
      assert ParseFrom(start, line + "") != ParseFrom(start, "");
    }
  }

  /** A comment or blank line that fgets returns in one piece changes neither section nor map, wherever it stands. */
  lemma CommentSkipped(st: State, blanks: string, text: string, rest: string)
    requires OnlyBlanks(blanks) && '\n' !in blanks && '\n' !in text && |blanks| + |text| <= 1022
    requires text == "" || text[0] == ';' || text[0] == '#'
    ensures ParseFrom(st, blanks + text + "\n" + rest) == ParseFrom(st, rest)
  {
    var line := blanks + text + "\n";
    assert line[..|line| - 1] == blanks + text;
    CommentBindsNothing(blanks, text);
    LineIsFold(st, line, rest);
    assert AllBindNothing(Pieces(line));
    SkippedFold(st, Pieces(line));
  }

  lemma CommentBindsNothing(blanks: string, text: string)
    requires OnlyBlanks(blanks) && (text == "" || text[0] == ';' || text[0] == '#')
    ensures BindsNothing(blanks + text + "\n")
  {
    AllBlank(blanks, "");
    if text == "" {
      var s := blanks + "\n";
      assert blanks + text + "\n" == s;
      assert forall c | c in s :: IsSpace(c);
      BlanksOf(s, "");
      assert s + "" == s;
    } else {
      BlanksOf(blanks, text + "\n");
      assert blanks + text + "\n" == blanks + (text + "\n");
    }
  }

  /** A longer comment is cut, and what is behind the cut is read as a line: this one binds `a`. */
  lemma LongCommentBinds(st: State, rest: string)
    ensures ParseFrom(st, "#" + Spaces(1022) + "a=b\n" + rest) ==
            ParseFrom(State(st.sec, st.m[st.sec + ":" + "a" := Some("b")]), rest)
  {
    var first, second := "#" + Spaces(1022), "a=b\n";
    var line := first + second;
    assert line[..|line| - 1] == first + "a=b" && line[..1023] == first && line[1023..] == second;
    LineIsFold(st, line, rest);
    assert Pieces(line) == [first] + [second];
    FoldSplits(st, [first], [second]);
    FoldOne(st, first);
    FoldOne(st, second);
    assert Blanks(first) == 0 && Skipped(first)[0] == '#';
    ShortEntry();
  }

  lemma ShortEntry()
    ensures ParseLine("a=b\n") == Entry("a", "b")
  {
    assert "a" + Spaces(0) + "=" + "b\n" == "a=b\n" && "b" + "\n" == "b\n";
    KeyLine("a", 0, "b\n");
    SkippedBlanks("", "b\n");
    assert "" + "b\n" == "b\n";
    SurvivorIsScanned("b");
    MadeEntry("a", 0, "b\n", "b");
  }

  ghost predicate Sub(a: Bindings, b: Bindings) {
    forall k | k in a :: k in b && a[k] == b[k]
  }

  /** The slots hold entries of `m`. */
  ghost predicate Within(keys: Slots, vals: seq<Value>, m: Bindings) {
    && |keys| == |vals|
    && forall i | 0 <= i < |keys| && keys[i].Some? :: keys[i].value in m && m[keys[i].value] == vals[i]
  }

  /** A key with the prefix `sec:` has its first colon right after `sec`. */
  lemma PrefixIsSection(sec: string, k: string)
    requires ':' !in sec && sec + ":" <= k
    ensures Cspn(k, {':'}) == |sec| && k[..|sec|] == sec && ':' in k
    ensures sec + ":" + k[|sec| + 1..] == k
  {
    assert k == sec + ":" + k[|sec| + 1..];
    assert forall i | 0 <= i < |sec| :: k[i] == sec[i] && sec[i] in sec;
    CspnIs(k, {':'}, |sec|);
    assert k[|sec|] in k;
  }

  lemma EntryLineIsGood(name: string, v: string)
    requires GoodName(name) && '\n' !in v && |EntryLine(name, v)| <= ASCIILINESZ - 1
    ensures GoodLine(EntryLine(name, v))
  {
    var l := EntryLine(name, v);
    assert l[..|l| - 1] == Pad(name) + " = " + v;
  }

  lemma OwnEntry(sec: string, k: string, st: State, m: Bindings)
    requires Dumpable(m) && k in m && ':' !in sec && sec + ":" <= k && st.sec == sec
    ensures m[k].Some?
    ensures GoodLine(EntryLine(k[|sec| + 1..], m[k].value))
    ensures Step(st, ParseLine(EntryLine(k[|sec| + 1..], m[k].value))) == State(sec, st.m[k := m[k]])
  {
    PrefixIsSection(sec, k);
    assert DumpableEntry(m, k);
    EntryReadsBack(k[|sec| + 1..], m[k].value);
    EntryLineIsGood(k[|sec| + 1..], m[k].value);
  }

  /** `r` holds every slot of section `sec`. */
  ghost predicate Covers(r: Bindings, sec: string, keys: Slots) {
    forall i | 0 <= i < |keys| && keys[i].Some? && sec + ":" <= keys[i].value :: keys[i].value in r
  }

  lemma {:induction false} EntriesAreGood(sec: string, keys: Slots, vals: seq<Value>, m: Bindings)
    requires Dumpable(m) && Within(keys, vals, m) && ':' !in sec
    ensures forall l | l in EntryLines(sec, keys, vals) :: GoodLine(l)
    decreases |keys|
  {
    if keys != [] {
      var last := |keys| - 1;
      EntriesAreGood(sec, keys[..last], vals[..last], m);
      if keys[last].Some? && sec + ":" <= keys[last].value {
        OwnEntry(sec, keys[last].value, State(sec, m), m);
      }
    }
  }

  /** Folding over the entries of one section adds exactly bindings of `m`, among them every slot of
      that section. */
  lemma {:induction false} EntriesFold(sec: string, keys: Slots, vals: seq<Value>, st: State, m: Bindings)
    requires Dumpable(m) && Within(keys, vals, m) && ':' !in sec && st.sec == sec && Sub(st.m, m)
    ensures var r := Fold(st, EntryLines(sec, keys, vals));
            r.sec == sec && Sub(r.m, m) && st.m.Keys <= r.m.Keys && Covers(r.m, sec, keys)
    decreases |keys|
  {
    if keys != [] {
      var last := |keys| - 1;
      var before := EntryLines(sec, keys[..last], vals[..last]);
      EntriesFold(sec, keys[..last], vals[..last], st, m);
      var mid := Fold(st, before);
      var r := Fold(st, EntryLines(sec, keys, vals));
      if keys[last].Some? && sec + ":" <= keys[last].value {
        var k := keys[last].value;
        OneMoreEntry(sec, k, st, before, m);
        assert EntryLines(sec, keys, vals) == before + [EntryLine(k[|sec| + 1..], m[k].value)];
        assert r == State(sec, mid.m[k := m[k]]);
      } else {
        assert EntryLines(sec, keys, vals) == before;
      }
      CoversOneMore(mid.m, r.m, sec, keys);
    }
  }

  lemma CoversOneMore(mid: Bindings, r: Bindings, sec: string, keys: Slots)
    requires keys != [] && Covers(mid, sec, keys[..|keys| - 1]) && mid.Keys <= r.Keys
    requires var last := keys[|keys| - 1]; last.Some? && sec + ":" <= last.value ==> last.value in r
    ensures Covers(r, sec, keys)
  {
    assert forall i | 0 <= i < |keys| - 1 :: keys[..|keys| - 1][i] == keys[i];
  }

  lemma OneMoreEntry(sec: string, k: string, st: State, before: seq<string>, m: Bindings)
    requires Dumpable(m) && k in m && ':' !in sec && sec + ":" <= k && Fold(st, before).sec == sec
    ensures m[k].Some? && GoodLine(EntryLine(k[|sec| + 1..], m[k].value))
    ensures Fold(st, before + [EntryLine(k[|sec| + 1..], m[k].value)]) == State(sec, Fold(st, before).m[k := m[k]])
  {
    var mid := Fold(st, before);
    OwnEntry(sec, k, mid, m);
    var l := EntryLine(k[|sec| + 1..], m[k].value);
    FoldSplits(st, before, [l]);
    assert Fold(mid, [l]) == Fold(Step(mid, ParseLine(l)), []);
  }

  lemma SectionHead(st: State, sec: string, m: Bindings)
    requires Dumpable(m) && sec in m && ':' !in sec && Sub(st.m, m)
    ensures GoodLine("\n") && GoodLine(SectionLine(sec)) && GoodSection(sec)
    ensures Fold(st, ["\n", SectionLine(sec)]) == State(sec, st.m[sec := m[sec]])
  {
    var s := SectionLine(sec);
    SectionReadsBack(sec);
    assert s[..|s| - 1] == "[" + sec + "]";
    assert Skipped("\n") == [];
    assert ["\n", s][1..] == [s];
    assert Fold(st, ["\n", s]) == Fold(Step(st, ParseLine("\n")), [s]);
    assert Fold(st, [s]) == Fold(Step(st, ParseLine(s)), []);
  }

  /** Folding over all sections adds exactly bindings of `m`: every section, and every slot of each. */
  lemma {:induction false} SectionsFold(secs: seq<string>, keys: Slots, vals: seq<Value>, st: State, m: Bindings)
    requires Dumpable(m) && Within(keys, vals, m) && Sub(st.m, m)
    requires forall s | s in secs :: s in m && ':' !in s
    ensures forall l | l in SectionLines(secs, keys, vals) :: GoodLine(l)
    ensures var r := Fold(st, SectionLines(secs, keys, vals));
            && Sub(r.m, m)
            && (forall s | s in secs :: s in r.m)
            && forall s | s in secs :: Covers(r.m, s, keys)
    decreases |secs|
  {
    if secs != [] {
      var last := secs[|secs| - 1];
      var front := secs[..|secs| - 1];
      assert secs == front + [last];
      SectionsFold(front, keys, vals, st, m);
      var before := SectionLines(front, keys, vals);
      var mid := Fold(st, before);
      var head, entries := ["\n", SectionLine(last)], EntryLines(last, keys, vals);
      SectionHead(mid, last, m);
      var open := Fold(mid, head);
      EntriesFold(last, keys, vals, open, m);
      EntriesAreGood(last, keys, vals, m);
      FoldSplits(mid, head, entries);
      FoldSplits(st, before, head + entries);
    }
  }

  /** Every section and every slot of every section is all there is. */
  lemma KeyIsCovered(keys: Slots, at: map<string, nat>, m: Bindings, r: Bindings, k: string)
    requires Indexed(keys, at) && at.Keys == m.Keys && k in m
    requires ':' in k ==> DumpableEntry(m, k)
    requires forall s | s in m && ':' !in s :: s in r && Covers(r, s, keys)
    requires forall s | s in m && ':' in s :: DumpableEntry(m, s)
    ensures k in r
  {
    assert keys[at[k]] == Some(k);
    if ':' in k {
      var s := k[..Cspn(k, {':'})];
      assert ':' !in s && s in m;
      assert s + ":" <= k;
    }
  }

  lemma AllCovered(keys: Slots, at: map<string, nat>, m: Bindings, r: Bindings)
    requires Indexed(keys, at) && at.Keys == m.Keys && Dumpable(m) && Sub(r, m)
    requires forall s | s in Sections(keys) :: s in r && Covers(r, s, keys)
    ensures r == m
  {
    SectionsEnumerate(keys, at);
    forall s | s in m && ':' !in s ensures s in r && Covers(r, s, keys) {
      assert keys[at[s]] == Some(s);
      assert s in Sections(keys);
    }
    forall k | k in m ensures k in r {
      KeyIsCovered(keys, at, m, r, k);
    }
  }

  /** Parsing the dump of a dumpable dictionary gives the same map. */
  lemma DumpParses(d: Dictionary)
    requires d.Valid() && Dumpable(d.bindings)
    ensures ParseFrom(State("", map[]), Concat(DumpLines(d.key[..], d.val[..]))).m == d.bindings
  {
    var m, secs := d.bindings, Sections(d.key[..]);
    SectionsEnumerate(d.key[..], d.at);
    assert secs != [] by {
      var s :| s in m && ':' !in s;
      assert d.key[d.at[s]] == Some(s);
    }
    var start := State("", map[]);
    SectionsFold(secs, d.key[..], d.val[..], start, m);
    var lines := SectionLines(secs, d.key[..], d.val[..]);
    ParseIsFold(start, lines + ["\n"]);
    BlankLine(start, lines);
    AllCovered(d.key[..], d.at, m, Fold(start, lines).m);
  }

  lemma BlankLine(st: State, lines: seq<string>)
    ensures GoodLine("\n") && Fold(st, lines + ["\n"]) == Fold(st, lines)
  {
    var r := Fold(st, lines);
    FoldSplits(st, lines, ["\n"]);
    assert Skipped("\n") == [];
    assert Fold(r, ["\n"]) == Fold(Step(r, ParseLine("\n")), []);
  }

  /** Dump and parse, end to end. */
  method SaveAndLoad(d: Dictionary) returns (loaded: Dictionary)
    requires d.Valid() && Dumpable(d.bindings)
    ensures loaded.Valid() && fresh(loaded) && loaded.bindings == d.bindings
  {
    var text := DumpIni(d);
    DumpParses(d);
    loaded := Parse(text);
  }

  // ----- every entry once -----

  /** A key with a colon: the section it belongs to, and the line that the dump prints for it. */
  predicate Keyed(k: string) {
    Cspn(k, {':'}) < |k|
  }

  function SectionOf(k: string): string
    requires Keyed(k)
  {
    k[..Cspn(k, {':'})]
  }

  function LineOf(k: string, v: Value): string
    requires Keyed(k)
  {
    EntryLine(k[Cspn(k, {':'}) + 1..], Text(v, ""))
  }

  predicate Owned(slot: Option<string>, secs: seq<string>) {
    slot.Some? && Keyed(slot.value) && SectionOf(slot.value) in secs
  }

  /** One line for each slot that belongs to one of the sections. */
  ghost function OwnedLines(keys: Slots, vals: seq<Value>, secs: seq<string>): multiset<string>
    requires |keys| == |vals|
  {
    if keys == [] then multiset{}
    else
      var last := |keys| - 1;
      OwnedLines(keys[..last], vals[..last], secs) +
      if Owned(keys[last], secs) then multiset{LineOf(keys[last].value, vals[last])} else multiset{}
  }

  /** Two lines for each section. */
  ghost function Heads(secs: seq<string>): multiset<string> {
    if secs == [] then multiset{}
    else Heads(secs[..|secs| - 1]) + multiset{"\n", SectionLine(secs[|secs| - 1])}
  }

  /** The prefix test of the dump asks whether the key belongs to the section. */
  lemma PrefixTest(sec: string, k: string, v: Value)
    requires ':' !in sec
    ensures sec + ":" <= k <==> Keyed(k) && SectionOf(k) == sec
    ensures sec + ":" <= k ==> EntryLine(k[|sec| + 1..], Text(v, "")) == LineOf(k, v)
  {
    if Keyed(k) {
      var c := Cspn(k, {':'});
      assert k[..c + 1] == k[..c] + ":";
    }
    if sec + ":" <= k {
      PrefixIsSection(sec, k);
    }
  }

  lemma {:induction false} EntriesOnce(sec: string, keys: Slots, vals: seq<Value>)
    requires |keys| == |vals| && ':' !in sec
    ensures multiset(EntryLines(sec, keys, vals)) == OwnedLines(keys, vals, [sec])
    decreases |keys|
  {
    if keys != [] {
      var last := |keys| - 1;
      EntriesOnce(sec, keys[..last], vals[..last]);
      if keys[last].Some? {
        PrefixTest(sec, keys[last].value, vals[last]);
        assert forall x :: x in [sec] <==> x == sec;
      }
    }
  }

  /** A slot belongs to at most one section. */
  lemma {:induction false} OwnedAdds(keys: Slots, vals: seq<Value>, secs: seq<string>, sec: string)
    requires |keys| == |vals| && sec !in secs
    ensures OwnedLines(keys, vals, secs + [sec]) == OwnedLines(keys, vals, secs) + OwnedLines(keys, vals, [sec])
    decreases |keys|
  {
    if keys != [] {
      var last := |keys| - 1;
      OwnedAdds(keys[..last], vals[..last], secs, sec);
      assert forall x :: x in secs + [sec] <==> x in secs || x == sec;
      assert forall x :: x in [sec] <==> x == sec;
    }
  }

  lemma {:induction false} OwnedByNone(keys: Slots, vals: seq<Value>)
    requires |keys| == |vals|
    ensures OwnedLines(keys, vals, []) == multiset{}
    decreases |keys|
  {
    if keys != [] {
      OwnedByNone(keys[..|keys| - 1], vals[..|vals| - 1]);
    }
  }

  /** The section part of a dump consists of the two lines of each section and, exactly once, the line of each entry
      that belongs to one of them. */
  lemma {:induction false} EachEntryOnce(secs: seq<string>, keys: Slots, vals: seq<Value>)
    requires |keys| == |vals|
    requires forall s | s in secs :: ':' !in s
    requires forall i, j | 0 <= i < j < |secs| :: secs[i] != secs[j]
    ensures multiset(SectionLines(secs, keys, vals)) == Heads(secs) + OwnedLines(keys, vals, secs)
    decreases |secs|
  {
    if secs == [] {
      OwnedByNone(keys, vals);
    } else {
      var front, last := secs[..|secs| - 1], secs[|secs| - 1];
      assert secs == front + [last];
      EachEntryOnce(front, keys, vals);
      EntriesOnce(last, keys, vals);
      OwnedAdds(keys, vals, front, last);
      assert multiset(["\n", SectionLine(last)]) == multiset{"\n", SectionLine(last)};
    }
  }

  /** The dump of a table with sections: the lines of every section of the map, the line of every keyed entry whose
      section is in the map, each exactly once, and a final empty line. */
  lemma DumpPrintsOnce(d: Dictionary)
    requires d.Valid() && Sections(d.key[..]) != []
    ensures var keys, vals, secs := d.key[..], d.val[..], Sections(d.key[..]);
            && multiset(DumpLines(keys, vals)) == Heads(secs) + OwnedLines(keys, vals, secs) + multiset{"\n"}
            && (forall s :: s in secs <==> s in d.bindings && ':' !in s)
            && forall i, j | 0 <= i < j < |secs| :: secs[i] != secs[j]
  {
    var secs := Sections(d.key[..]);
    SectionsEnumerate(d.key[..], d.at);
    forall s ensures s in secs <==> s in d.bindings && ':' !in s {
      assert s in d.bindings ==> d.key[..][d.at[s]] == Some(s);
    }
    EachEntryOnce(secs, d.key[..], d.val[..]);
    assert multiset(["\n"]) == multiset{"\n"};
  }

  /** How an entry is printed: the name, filled up with blanks to 30 characters, the equals sign, the value. */
  lemma EntryAligned(name: string, v: string)
    ensures var line, w := EntryLine(name, v), if |name| < 30 then 30 else |name|;
            && name <= line && w <= |line| && line[w..] == " = " + v + "\n"
            && forall i | |name| <= i < w :: line[i] == ' '
  {
  }

  /** The entries of a section stand in slot order. */
  lemma {:induction false} EntriesInOrder(sec: string, keys: Slots, vals: seq<Value>, moreKeys: Slots,
                                          moreVals: seq<Value>)
    requires |keys| == |vals| && |moreKeys| == |moreVals|
    ensures EntryLines(sec, keys + moreKeys, vals + moreVals) ==
            EntryLines(sec, keys, vals) + EntryLines(sec, moreKeys, moreVals)
    decreases |moreKeys|
  {
    if moreKeys == [] {
      assert keys + moreKeys == keys && vals + moreVals == vals;
    } else {
      var last := |moreKeys| - 1;
      EntriesInOrder(sec, keys, vals, moreKeys[..last], moreVals[..last]);
      assert (keys + moreKeys)[..|keys| + last] == keys + moreKeys[..last];
      assert (vals + moreVals)[..|keys| + last] == vals + moreVals[..last];
      assert (keys + moreKeys)[|keys| + last] == moreKeys[last] && (vals + moreVals)[|keys| + last] == moreVals[last];
      LinesRegroup(EntryLines(sec, keys, vals), EntryLines(sec, moreKeys[..last], moreVals[..last]),
                   if moreKeys[last].Some? && sec + ":" <= moreKeys[last].value
                   then [EntryLine(moreKeys[last].value[|sec| + 1..], Text(moreVals[last], ""))] else []);
    }
  }

  lemma LinesRegroup(a: seq<string>, b: seq<string>, c: seq<string>)
    ensures a + (b + c) == a + b + c
  {
  }

  // ----- a dump without sections -----

  predicate BareDumpable(k: string, v: Value) {
    && GoodName(k)
    && (v.Some? ==> Survives(v.value) && '\n' !in v.value)
    && |k| + |Text(v, "(null)")| + 4 <= 1023
  }

  /** What loading makes of the bindings: every key gets a colon in front, and NULL becomes a text. */
  ghost predicate Loaded(r: Bindings, m: Bindings) {
    forall x | x in r ::
      && x != "" && x[0] == ':' && x[1..] in m
      && r[x] == if m[x[1..]].Some? then m[x[1..]] else Some("(null)")
  }

  lemma BareText(v: Value)
    requires v.Some? ==> Survives(v.value) && '\n' !in v.value
    ensures var text := Text(v, "(null)"); Survives(text) && '\n' !in text
  {
  }

  lemma BareParses(k: string, text: string)
    requires GoodName(k) && Survives(text)
    ensures ParseLine(k + " = " + text + "\n") == Entry(k, text)
  {
    var r := " " + text + "\n";
    assert k + " = " + text + "\n" == k + Spaces(1) + "=" + r;
    KeyLine(k, 1, r);
    ValueReadsBack(text);
    MadeEntry(k, 1, r, text);
  }

  lemma BareIsGood(k: string, text: string)
    requires GoodName(k) && '\n' !in text && |k| + |text| + 4 <= 1023
    ensures GoodLine(k + " = " + text + "\n")
  {
    var line := k + " = " + text + "\n";
    assert line[..|line| - 1] == k + " = " + text;
  }

  lemma BareEntry(st: State, k: string, v: Value)
    requires BareDumpable(k, v) && st.sec == ""
    ensures var line := k + " = " + Text(v, "(null)") + "\n";
            && GoodLine(line)
            && Step(st, ParseLine(line)) ==
               st.(m := st.m[":" + k := if v.Some? then v else Some("(null)")])
  {
    var text := Text(v, "(null)");
    BareText(v);
    BareParses(k, text);
    BareIsGood(k, text);
    assert "" + ":" + k == ":" + k;
    assert (if v.Some? then v else Some("(null)")) == Some(text);
  }

  lemma LoadedOneMore(r: Bindings, m: Bindings, k: string)
    requires Loaded(r, m) && k in m
    ensures Loaded(r[":" + k := if m[k].Some? then m[k] else Some("(null)")], m)
  {
    assert (":" + k)[1..] == k;
  }

  /** Every occupied slot's key is in `r`, with a colon in front. */
  ghost predicate AllLoaded(r: Bindings, keys: Slots) {
    forall i | 0 <= i < |keys| && keys[i].Some? :: ":" + keys[i].value in r
  }

  lemma AllLoadedOneMore(mid: Bindings, r: Bindings, keys: Slots)
    requires keys != [] && AllLoaded(mid, keys[..|keys| - 1]) && mid.Keys <= r.Keys
    requires keys[|keys| - 1].Some? ==> ":" + keys[|keys| - 1].value in r
    ensures AllLoaded(r, keys)
  {
    assert forall i | 0 <= i < |keys| - 1 :: keys[..|keys| - 1][i] == keys[i];
  }

  lemma BareOneMore(keys: Slots, vals: seq<Value>, st: State, m: Bindings)
    requires keys != [] && Within(keys, vals, m) && (forall k | k in m :: BareDumpable(k, m[k]))
    requires var last := |keys| - 1;
             var mid := Fold(st, BareLines(keys[..last], vals[..last]));
             && mid.sec == "" && Loaded(mid.m, m) && AllLoaded(mid.m, keys[..last])
             && forall l | l in BareLines(keys[..last], vals[..last]) :: GoodLine(l)
    ensures var r := Fold(st, BareLines(keys, vals));
            r.sec == "" && Loaded(r.m, m) && AllLoaded(r.m, keys)
    ensures forall l | l in BareLines(keys, vals) :: GoodLine(l)
  {
    var last := |keys| - 1;
    var before := BareLines(keys[..last], vals[..last]);
    var mid := Fold(st, before);
    if keys[last].Some? {
      var k := keys[last].value;
      var line := k + " = " + Text(vals[last], "(null)") + "\n";
      BareEntry(mid, k, vals[last]);
      LoadedOneMore(mid.m, m, k);
      FoldSplits(st, before, [line]);
      FoldOne(mid, line);
    } else {
      assert before + [] == before;
    }
    AllLoadedOneMore(mid.m, Fold(st, BareLines(keys, vals)).m, keys);
  }

  lemma {:induction false} BareFold(keys: Slots, vals: seq<Value>, st: State, m: Bindings)
    requires Within(keys, vals, m) && (forall k | k in m :: BareDumpable(k, m[k]))
    requires st.sec == "" && Loaded(st.m, m)
    ensures var r := Fold(st, BareLines(keys, vals));
            r.sec == "" && Loaded(r.m, m) && AllLoaded(r.m, keys)
    ensures forall l | l in BareLines(keys, vals) :: GoodLine(l)
    decreases |keys|
  {
    if keys != [] {
      BareFold(keys[..|keys| - 1], vals[..|vals| - 1], st, m);
      BareOneMore(keys, vals, st, m);
    }
  }

  /** A dictionary without sections does not survive: loaded again, every key is the old one with a colon in front. */
  lemma BareDumpParses(d: Dictionary)
    requires d.Valid() && Sections(d.key[..]) == [] && forall k | k in d.bindings :: BareDumpable(k, d.bindings[k])
    ensures var r := ParseFrom(State("", map[]), Concat(DumpLines(d.key[..], d.val[..]))).m;
            Loaded(r, d.bindings) && forall k | k in d.bindings :: ":" + k in r
  {
    var start := State("", map[]);
    BareFold(d.key[..], d.val[..], start, d.bindings);
    ParseIsFold(start, BareLines(d.key[..], d.val[..]));
    forall k | k in d.bindings ensures d.key[..][d.at[k]] == Some(k) {
    }
  }

  // ----- look-up -----

  /** iniparser_getvalue: "section:key", cut to 1023 characters and lowered, is looked up. */
  method GetValue(d: Dictionary, section: string, key: string) returns (r: Value)
    requires d.Valid()
    ensures var k := section + ":" + key;
            var cut := Lower(if |k| > ASCIILINESZ - 1 then k[..ASCIILINESZ - 1] else k);
            r == if cut in d.bindings then d.bindings[cut] else None
  {
    var k := section + ":" + key;
    var tmp := if |k| > ASCIILINESZ - 1 then k[..ASCIILINESZ - 1] else k;
    var lower := ComputeStrlwc(tmp);
    r := d.Get(lower, None);
  }
}
