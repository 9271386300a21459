/**
 The INI reader (iniparser/iniparser.c) and the two lookups over what it read (iniparser.c, config.c).
 `stale` stands for memory the source leaves uninitialised: the name of a section before its header, and
 what lies behind the terminator of the line buffer.
 */
module Ini {
  import opened Text

  datatype Config = Config(key: string, value: string)

  datatype Section = Section(name: string, configs: seq<Config>)

  /** Blanks for trim. */
  predicate IsBlank(c: char) { c == ' ' || c == '\t' || c == '\n' || c == '\r' }

  predicate IsEnd(c: char) { c == '\r' || c == '\n' }

  predicate IsSeparator(c: char) { c == ':' || c == '=' }

  // ---------------------------------------------------------------------------------------------
  // One line
  // ---------------------------------------------------------------------------------------------

  /** First index in [b, e) that is not blank, or e. */
  function FirstInk(s: string, b: nat, e: nat): (i: nat)
    requires b <= e <= |s|
    ensures b <= i <= e
    decreases e - b
  {
    if b < e && IsBlank(s[b]) then FirstInk(s, b + 1, e) else b
  }

  /** One past the last index in [b, e) that is not blank, or b. */
  function InkEnd(s: string, b: nat, e: nat): (i: nat)
    requires b <= e <= |s|
    ensures b <= i <= e
    decreases e - b
  {
    if b < e && IsBlank(s[e - 1]) then InkEnd(s, b, e - 1) else e
  }

  /** First separator in [b, e), or e. */
  function FirstSeparator(s: string, b: nat, e: nat): (i: nat)
    requires b <= e <= |s|
    ensures b <= i <= e
    decreases e - b
  {
    if b < e && !IsSeparator(s[b]) then FirstSeparator(s, b + 1, e) else b
  }

  /** What trim and the search for a separator find is found nowhere else. */
  lemma {:induction false} FirstInkIs(s: string, b: nat, k: nat, e: nat)
    requires b <= e <= |s|
    ensures FirstInk(s, b, e) == k <==>
            && b <= k <= e
            && (forall i | b <= i < k :: s[i] == ' ' || s[i] == '\t' || s[i] == '\n' || s[i] == '\r')
            && (k < e ==> !(s[k] == ' ' || s[k] == '\t' || s[k] == '\n' || s[k] == '\r'))
    decreases e - b
  {
    if b < e && IsBlank(s[b]) {
      FirstInkIs(s, b + 1, k, e);
    }
  }

  lemma {:induction false} InkEndIs(s: string, b: nat, k: nat, e: nat)
    requires b <= e <= |s|
    ensures InkEnd(s, b, e) == k <==>
            && b <= k <= e
            && (forall i | k <= i < e :: s[i] == ' ' || s[i] == '\t' || s[i] == '\n' || s[i] == '\r')
            && (k > b ==> !(s[k - 1] == ' ' || s[k - 1] == '\t' || s[k - 1] == '\n' || s[k - 1] == '\r'))
    decreases e - b
  {
    if b < e && IsBlank(s[e - 1]) {
      InkEndIs(s, b, k, e - 1);
    }
  }

  lemma {:induction false} FirstSeparatorIs(s: string, b: nat, k: nat, e: nat)
    requires b <= e <= |s|
    ensures FirstSeparator(s, b, e) == k <==>
            && b <= k <= e
            && (forall i | b <= i < k :: s[i] != ':' && s[i] != '=')
            && (k < e ==> s[k] == ':' || s[k] == '=')
    decreases e - b
  {
    if b < e && !IsSeparator(s[b]) {
      FirstSeparatorIs(s, b + 1, k, e);
    }
  }

  datatype LineKind = Comment | Header(name: string) | Entry(config: Config)

  /** What a line says, in the source's index arithmetic; `e` is one past the last character that is not blank. */
  function ParseLine(s: string, stale: string): LineKind {
    KindAt(s, FirstInk(s, 0, |s|), InkEnd(s, 0, |s|), stale)
  }

  function KindAt(s: string, b: nat, e: nat, stale: string): LineKind
    requires b <= |s| && e <= |s|
  {
    if b < |s| && (s[b] == '#' || s[b] == ';') then Comment
    else if b < |s| && s[b] == '[' then Header(if b + 1 < e then s[b + 1..e - 1] else s[b + 1..])
    else if b >= e then Entry(Config("", stale))
    else Entry(ConfigAt(s, b, FirstSeparator(s, b, e), e, stale))
  }

  /** Key and value of a text at [b, e) whose separator is at `i`; at `e` if it has none. */
  function ConfigAt(s: string, b: nat, i: nat, e: nat, stale: string): Config
    requires b <= i <= e <= |s|
  {
    Config(TrimmedAt(s, b, i), if i < e then TrimmedAt(s, i + 1, e) else stale)
  }

  /** [b, e) without surrounding blanks. */
  function TrimmedAt(s: string, b: nat, e: nat): string
    requires b <= e <= |s|
  {
    var x, y := FirstInk(s, b, e), InkEnd(s, b, e);
    if x <= y then s[x..y] else ""
  }

  /** trim: the index of the first character that is not blank and the inclusive index of the last one. */
  method Trim(s: string, b: nat, e: nat) returns (first: nat, last: int)
    requires b <= e <= |s|
    ensures first == FirstInk(s, b, e) && last == InkEnd(s, b, e) - 1
  {
    first := b;
    while first < e && IsBlank(s[first])
      invariant b <= first <= e
      invariant FirstInk(s, b, e) == FirstInk(s, first, e)
    {
      first := first + 1;
    }
    last := e - 1;
    while last >= b && IsBlank(s[last])
      invariant b - 1 <= last < e
      invariant InkEnd(s, b, e) == InkEnd(s, b, last + 1)
      decreases last - b + 1
    {
      last := last - 1;
    }
  }

  /** The line-handling part of parse_section. */
  method ReadKind(s: string, stale: string) returns (k: LineKind)
    ensures k == ParseLine(s, stale)
  {
    var b, e := Trim(s, 0, |s|);
    if b < |s| && (s[b] == '#' || s[b] == ';') {
      return Comment;
    }
    if b < |s| && s[b] == '[' {
      return Header(if b < e then s[b + 1..e] else s[b + 1..]);
    }
    if b > e {
      return Entry(Config("", stale));
    }
    var c := ReadConfig(s, b, e, stale);
    k := Entry(c);
  }

  /** The key and the value of the line whose text is at [b, e]. */
  method ReadConfig(s: string, b: nat, e: nat, stale: string) returns (c: Config)
    requires b <= e < |s|
    ensures c == ConfigAt(s, b, FirstSeparator(s, b, e + 1), e + 1, stale)
  {
    var i := b;
    while i <= e && !IsSeparator(s[i])
      invariant b <= i <= e + 1
      invariant FirstSeparator(s, b, e + 1) == FirstSeparator(s, i, e + 1)
    {
      i := i + 1;
    }
    var key := Cut(s, b, i);
    var value := stale;
    if i <= e {
      value := Cut(s, i + 1, e + 1);
    }
    c := Config(key, value);
  }

  /** Trimming a range, terminating it and copying it out. */
  method Cut(s: string, b: nat, e: nat) returns (r: string)
    requires b <= e <= |s|
    ensures r == TrimmedAt(s, b, e)
  {
    var x, y := Trim(s, b, e);
    r := if x <= y + 1 then s[x..y + 1] else "";
  }

  // ---------------------------------------------------------------------------------------------
  // Lines and sections
  // ---------------------------------------------------------------------------------------------

  /** Index of the first line end, or the length. */
  function LineLength(s: string): (n: nat)
    ensures n <= |s| && (n < |s| ==> IsEnd(s[n])) && forall k | 0 <= k < n :: !IsEnd(s[k])
  {
    if s == "" || IsEnd(s[0]) then 0 else 1 + LineLength(s[1..])
  }

  /** The line that starts at a position. */
  function LineAt(file: string, pos: nat): string
    requires pos <= |file|
  {
    file[pos..][..LineLength(file[pos..])]
  }

  /** Where the next one starts. */
  function NextPos(file: string, pos: nat): nat
    requires pos <= |file|
  {
    Min(pos + |LineAt(file, pos)| + 1, |file|)
  }

  /** The non-empty lines of a file. */
  function Lines(s: string): seq<string>
    decreases |s|
  {
    if s == "" then []
    else
      var n := LineLength(s);
      (if n > 0 then [s[..n]] else []) + (if n < |s| then Lines(s[n + 1..]) else [])
  }

  /** Every line is terminated. */
  predicate Terminated(s: string) { s != "" ==> IsEnd(s[|s| - 1]) }

  function AddConfig(x: Section, c: Config): Section { x.(configs := x.configs + [c]) }

  /**
   The sections of a list of lines, `cur` being under construction and `open` saying whether its header
   has been seen: a header closes an open section, but names one that has none yet. When `cut`, the last
   line is not terminated; a header there renames the section at hand.
   */
  function Collect(lines: seq<string>, cur: Section, open: bool, stale: string, cut: bool): seq<Section>
    decreases |lines|, 0
  {
    if lines == [] then [cur]
    else CollectKind(ParseLine(CString(lines[0]), stale), lines[1..], cur, open, stale, cut)
  }

  function CollectKind(kind: LineKind, more: seq<string>, cur: Section, open: bool, stale: string, cut: bool)
    : seq<Section>
    decreases |more|, 1
  {
    match kind
    case Comment => Collect(more, cur, open, stale, cut)
    case Entry(c) => Collect(more, AddConfig(cur, c), open, stale, cut)
    case Header(name) =>
      if open && !(cut && more == []) then [cur] + Collect(more, Section(name, []), true, stale, cut)
      else Collect(more, cur.(name := name), true, stale, cut)
  }

  /** What the lines of a file say. */
  function Sections(file: string, stale: string): seq<Section> {
    Collect(Lines(file), Section(stale, []), false, stale, false)
  }

  /** What the source reads: the same, but for a header the file breaks off after. */
  function Parsed(file: string, stale: string): seq<Section> {
    Collect(Lines(file), Section(stale, []), false, stale, !Terminated(file))
  }

  // ---------------------------------------------------------------------------------------------
  // The reader
  // ---------------------------------------------------------------------------------------------

  datatype State = START | NEW_SECTION | IN_SECTION | END_OF_FILE

  function Rank(st: State): nat {
    match st
    case NEW_SECTION => 2
    case START => 1
    case IN_SECTION => 1
    case END_OF_FILE => 0
  }

  /** struct read_ini: the open file, the line buffer and the parser state. */
  class Reader {
    const file: string
    const stale: string
    var pos: nat
    var tmp: string
    var state: State

    /** A new section is only announced with its header in the line buffer. */
    ghost predicate Valid()
      reads this
    {
      && pos <= |file| && (state == END_OF_FILE ==> pos == |file|)
      && (state == NEW_SECTION ==> ParseLine(CString(tmp), stale).Header?)
    }

    /** Lines not dealt with yet; an announced header counts. */
    ghost function Pending(): seq<string>
      requires Valid()
      reads this
    {
      if state == NEW_SECTION then [tmp] + Lines(file[pos..]) else Lines(file[pos..])
    }

    constructor (file: string, stale: string)
      ensures Valid() && this.file == file && this.stale == stale && pos == 0 && state == START
    {
      this.file, this.stale := file, stale;
      pos, tmp, state := 0, "", START;
    }

    /** read_line: true if the line is not empty; the end of the file ends a line as well. */
    method ReadLine() returns (got: bool)
      requires Valid() && (state == START || state == IN_SECTION)
      modifies this
      ensures Valid()
      ensures got == (LineAt(file, old(pos)) != "") && (got ==> tmp == LineAt(file, old(pos)))
      ensures pos == NextPos(file, old(pos))
      ensures state == if old(pos) + |LineAt(file, old(pos))| < |file| then old(state) else END_OF_FILE
    {
      ghost var rest := file[pos..];
      ghost var start := pos;
      var line := "";
      while pos < |file| && !IsEnd(file[pos])
        invariant start <= pos <= |file| && state == old(state) && tmp == old(tmp)
        invariant line == rest[..pos - start]
        invariant forall k | 0 <= k < pos - start :: !IsEnd(rest[k])
      {
        line := line + [file[pos]];
        pos := pos + 1;
      }
      LineLengthIs(rest, pos - start);
      if pos == |file| {
        state := END_OF_FILE;
      } else {
        pos := pos + 1;
      }
      got := line != "";
      if got {
        tmp := line;
      }
    }

    /** What the lines still to come make of the section under construction. */
    ghost function Outlook(section: Section): seq<Section>
      requires Valid()
      reads this
    {
      Collect(Pending(), section, state == IN_SECTION, stale, !Terminated(file))
    }

    /** Sections still to come between sections. */
    ghost function Ahead(): seq<Section>
      requires Valid()
      reads this
    {
      if state == END_OF_FILE then [] else Outlook(Section(stale, []))
    }

    /** The line to deal with next: the announced header, or one read from the file. */
    method Fetch() returns (got: bool)
      requires Valid() && state != END_OF_FILE
      modifies this
      ensures Valid()
      ensures old(state) == NEW_SECTION ==> got && tmp == old(tmp) && pos == old(pos) && state == NEW_SECTION
      ensures old(state) != NEW_SECTION ==> state == old(state) || state == END_OF_FILE
      ensures old(state) != NEW_SECTION && state == old(state) && pos == |file| ==> Terminated(file)
      ensures state == END_OF_FILE && got ==> !Terminated(file)
      ensures old(Pending()) == if got then [tmp] + Lines(file[pos..]) else Lines(file[pos..])
      ensures old(state) != NEW_SECTION ==>
                |file| - pos < old(|file| - pos) || (pos == old(pos) && state == END_OF_FILE && !got)
    {
      got := true;
      if state != NEW_SECTION {
        NextLine(file, pos);
        TerminatedRest(file, pos);
        got := ReadLine();
      }
    }

    /** Dealing with a fetched line; true when it announces a new section. */
    method Digest(section0: Section) returns (section: Section, done: bool)
      requires Valid() && (state == IN_SECTION && pos == |file| ==> Terminated(file))
      modifies this`state
      ensures Valid() && (done <==> state == NEW_SECTION)
      ensures state == old(state) || state == (if old(state) == IN_SECTION then NEW_SECTION else IN_SECTION)
      ensures old(state) == NEW_SECTION ==> state == IN_SECTION
      ensures var more, cut := Lines(file[pos..]), !Terminated(file);
              Collect([tmp] + more, section0, old(state) == IN_SECTION, stale, cut) ==
              if done then [section] + Collect([tmp] + more, Section(stale, []), false, stale, cut)
              else Collect(more, section, state == IN_SECTION, stale, cut)
    {
      section, done := section0, false;
      ghost var more, cut := Lines(file[pos..]), !Terminated(file);
      UnterminatedRest(file, pos);
      CollectCons(tmp, more, section0, state == IN_SECTION, stale, cut);
      CollectCons(tmp, more, Section(stale, []), false, stale, cut);
      var kind := ReadKind(CString(tmp), stale);
      match kind {
        case Comment =>
        case Entry(c) => section := AddConfig(section0, c);
        case Header(name) =>
          if state == IN_SECTION {
            state := NEW_SECTION;
            done := true;
          } else {
            section := section0.(name := name);
            state := IN_SECTION;
          }
      }
    }

    /** One turn of the loop of parse_section; `done` when a new section was announced. */
    method Turn(section0: Section) returns (section: Section, done: bool)
      requires Valid() && state != END_OF_FILE
      modifies this
      ensures Valid() && (done <==> state == NEW_SECTION)
      ensures old(Outlook(section0)) == if done then [section] + Outlook(Section(stale, [])) else Outlook(section)
      ensures |file| - pos < old(|file| - pos) || (pos == old(pos) && Rank(state) < old(Rank(state)))
    {
      section, done := section0, false;
      var got := Fetch();
      if state == END_OF_FILE {
        LastLine(tmp, section0, stale);
        assert Lines(file[pos..]) == [] && [tmp] + [] == [tmp];
      }
      if got {
        section, done := Digest(section0);
      }
    }

    /** parse_section: reads up to the next header or the end of the file. */
    method ParseSection() returns (section: Section)
      requires Valid() && (state == START || state == NEW_SECTION)
      modifies this
      ensures Valid() && (state == NEW_SECTION || state == END_OF_FILE)
      ensures old(Ahead()) == [section] + Ahead()
      ensures |file| - pos < old(|file| - pos) || (pos == old(pos) && Rank(state) < old(Rank(state)))
    {
      section := Section(stale, []);
      while state != END_OF_FILE
        invariant Valid()
        invariant old(Outlook(Section(stale, []))) == Outlook(section)
        invariant state == START || state == IN_SECTION || state == END_OF_FILE || section == Section(stale, [])
        invariant |file| - pos <= old(|file| - pos)
        decreases |file| - pos, Rank(state)
      {
        var done;
        section, done := Turn(section);
        if done {
          return;
        }
      }
    }

    lemma AtStart()
      requires Valid() && pos == 0 && state == START
      ensures Ahead() == Parsed(file, stale)
    {
      assert file[0..] == file;
    }

    /** Reading a section and adding it to those read before. */
    method AddSection(before: seq<Section>) returns (sections: seq<Section>)
      requires Valid() && (state == START || state == NEW_SECTION)
      modifies this
      ensures Valid() && (state == NEW_SECTION || state == END_OF_FILE)
      ensures before + old(Ahead()) == sections + Ahead()
      ensures |file| - pos < old(|file| - pos) || (pos == old(pos) && Rank(state) < old(Rank(state)))
    {
      var section := ParseSection();
      sections := before + [section];
      Assoc(before, [section], Ahead());
    }

    /** parse_ini: `error` is its default branch. */
    method ParseIni() returns (sections: seq<Section>, error: bool)
      requires Valid() && pos == 0 && state == START
      modifies this
      ensures sections == Parsed(file, stale) && !error
      ensures pos == |file| && state == END_OF_FILE
    {
      sections, error := [], false;
      var finished := false;
      ghost var whole := Parsed(file, stale);
      AtStart();
      while !finished
        invariant Valid() && state != IN_SECTION && !error
        invariant whole == sections + Ahead()
        invariant finished ==> state == END_OF_FILE
        decreases !finished, |file| - pos, Rank(state)
      {
        if state == START || state == NEW_SECTION {
          sections := AddSection(sections);
        } else {
          error := state != END_OF_FILE;
          finished := true;
        }
      }
    }
  }

  /** The lines from a position on, in terms of the line that starts there. */
  lemma NextLine(file: string, pos: nat)
    requires pos <= |file|
    ensures var line, more := LineAt(file, pos), Lines(file[NextPos(file, pos)..]);
            Lines(file[pos..]) == if line != "" then [line] + more else more
  {
    var rest := file[pos..];
    var n := LineLength(rest);
    if n < |rest| {
      assert rest[n + 1..] == file[NextPos(file, pos)..];
      assert Lines(rest) == (if n > 0 then [rest[..n]] else []) + Lines(rest[n + 1..]);
    } else {
      assert Lines(file[|file|..]) == [];
      assert rest != "" ==> Lines(rest) == [rest[..n]] + [];
    }
  }

  lemma TerminatedRest(file: string, pos: nat)
    requires pos <= |file|
    ensures pos + |LineAt(file, pos)| == |file| && LineAt(file, pos) != "" ==> !Terminated(file)
    ensures pos + |LineAt(file, pos)| == |file| - 1 ==> Terminated(file)
  {
    if pos < |file| {
      assert file[pos..][|file| - pos - 1] == file[|file| - 1];
    }
  }

  /** A file that breaks off in a line has lines left wherever it is not at its end. */
  lemma {:induction false} UnterminatedRest(file: string, pos: nat)
    requires pos <= |file|
    ensures pos < |file| && !Terminated(file) ==> Lines(file[pos..]) != []
    decreases |file| - pos
  {
    if pos < |file| && !Terminated(file) {
      TerminatedRest(file, pos);
      UnterminatedRest(file, pos + 1);
      assert file[pos..][1..] == file[pos + 1..];
    }
  }

  lemma CollectCons(line: string, more: seq<string>, cur: Section, open: bool, stale: string, cut: bool)
    ensures Collect([line] + more, cur, open, stale, cut) ==
            CollectKind(ParseLine(CString(line), stale), more, cur, open, stale, cut)
  {
    assert ([line] + more)[1..] == more;
  }

  /** A line the file breaks off in says the same in and out of a section. */
  lemma LastLine(line: string, cur: Section, stale: string)
    ensures Collect([line], cur, true, stale, true) == Collect([line], cur, false, stale, true)
  {
    CollectCons(line, [], cur, true, stale, true);
    CollectCons(line, [], cur, false, stale, true);
    assert [line] + [] == [line];
  }

  lemma {:induction false} LineLengthIs(s: string, n: nat)
    requires n <= |s| && (n < |s| ==> IsEnd(s[n])) && forall k | 0 <= k < n :: !IsEnd(s[k])
    ensures LineLength(s) == n
  {
    if n > 0 {
      LineLengthIs(s[1..], n - 1);
    }
  }

  // ---------------------------------------------------------------------------------------------
  // Lookups
  // ---------------------------------------------------------------------------------------------

  /** All settings of the sections of one name, in the order of the file. */
  function Gather(sections: seq<Section>, name: string): seq<Config> {
    if sections == [] then []
    else (if sections[0].name == name then sections[0].configs else []) + Gather(sections[1..], name)
  }

  /** Value of the first setting of a key. */
  function FirstValue(configs: seq<Config>, key: string): (v: Option<string>)
    ensures v.None? <==> forall c | c in configs :: c.key != key
    ensures v.Some? ==> exists k | 0 <= k < |configs| ::
              configs[k] == Config(key, v.value) && forall i | 0 <= i < k :: configs[i].key != key
  {
    if configs == [] then None
    else if configs[0].key == key then
      assert configs[0] == Config(key, configs[0].value);
      Some(configs[0].value)
    else
      var v := FirstValue(configs[1..], key);
      assert v.Some? ==> exists k | 0 <= k < |configs| ::
          configs[k] == Config(key, v.value) && forall i | 0 <= i < k :: configs[i].key != key by {
        if v.Some? {
          var k :| 0 <= k < |configs[1..]| && configs[1..][k] == Config(key, v.value)
                   && forall i | 0 <= i < k :: configs[1..][i].key != key;
          assert configs[k + 1] == Config(key, v.value);
          assert forall i | 0 < i < k + 1 :: configs[i] == configs[1..][i - 1];
        }
      }
      v
  }

  /** ini_get_value: the value jug_ini_get_section lists first. */
  method GetValue(sections: seq<Section>, name: string, key: string) returns (v: Option<string>)
    ensures v == FirstValue(Gather(sections, name), key)
  {
    ghost var answer := FirstValue(Gather(sections, name), key);
    assert sections[0..] == sections;
    var s := 0;
    while s < |sections|
      invariant s <= |sections|
      invariant answer == FirstValue(Gather(sections[s..], name), key)
    {
      LookupStep(sections, s, name, key);
      if name == sections[s].name {
        v := Search(sections[s].configs, key);
        if v.Some? {
          return;
        }
      }
      s := s + 1;
    }
    return None;
  }

  method Search(configs: seq<Config>, key: string) returns (v: Option<string>)
    ensures v == FirstValue(configs, key)
  {
    var c := 0;
    while c < |configs|
      invariant c <= |configs| && FirstValue(configs, key) == FirstValue(configs[c..], key)
    {
      assert configs[c..][1..] == configs[c + 1..];
      if key == configs[c].key {
        return Some(configs[c].value);
      }
      c := c + 1;
    }
    return None;
  }

  /** jug_ini_get_section: `kv` is the linked list, extended at its end. */
  method GetSection(sections: seq<Section>, name: string) returns (kv: seq<Config>)
    ensures kv == Gather(sections, name)
  {
    kv := [];
    var s := 0;
    while s < |sections|
      invariant s <= |sections| && Gather(sections, name) == kv + Gather(sections[s..], name)
    {
      GatherStep(sections, s, name);
      if name == sections[s].name {
        var here, c, before := sections[s].configs, 0, kv;
        while c < |here|
          invariant c <= |here| && kv == before + here[..c]
        {
          kv := kv + [here[c]];
          c := c + 1;
        }
      }
      s := s + 1;
    }
  }

  /** Number of settings of the sections of one name. */
  function Volume(sections: seq<Section>, name: string): nat {
    if sections == [] then 0
    else
      var last := sections[|sections| - 1];
      Volume(sections[..|sections| - 1], name) + if last.name == name then |last.configs| else 0
  }

  lemma {:induction false} GatheredVolume(sections: seq<Section>, name: string)
    ensures |Gather(sections, name)| == Volume(sections, name)
  {
    if sections != [] {
      var n := |sections| - 1;
      GatheredVolume(sections[..n], name);
      GatherSnoc(sections[..n], sections[n], name);
      assert sections[..n] + [sections[n]] == sections;
    }
  }

  /**
   What is gathered and where: setting `c` of section `s` comes after all settings of the earlier sections of
   that name, and by the volume nothing else is there.
   */
  lemma {:induction false} GatheredAt(sections: seq<Section>, name: string, s: nat, c: nat)
    requires s < |sections| && sections[s].name == name && c < |sections[s].configs|
    ensures |Gather(sections, name)| == Volume(sections, name)
    ensures Volume(sections[..s], name) + c < Volume(sections, name)
    ensures Gather(sections, name)[Volume(sections[..s], name) + c] == sections[s].configs[c]
    decreases |sections|
  {
    var n := |sections| - 1;
    var front := sections[..n];
    GatheredVolume(sections, name);
    GatheredVolume(front, name);
    GatherSnoc(front, sections[n], name);
    assert front + [sections[n]] == sections;
    if s < n {
      assert front[..s] == sections[..s];
      GatheredAt(front, name, s, c);
    }
  }

  lemma {:induction false} GatherSnoc(sections: seq<Section>, x: Section, name: string)
    ensures Gather(sections + [x], name) == Gather(sections, name) + (if x.name == name then x.configs else [])
  {
    if sections == [] {
      assert sections + [x] == [x] && [x][1..] == [];
      assert Gather([], name) == [];
    } else {
      assert (sections + [x])[1..] == sections[1..] + [x];
      GatherSnoc(sections[1..], x, name);
    }
  }

  lemma GatherStep(sections: seq<Section>, s: nat, name: string)
    requires s < |sections|
    ensures Gather(sections[s..], name) ==
            var more := Gather(sections[s + 1..], name);
            if sections[s].name == name then sections[s].configs + more else more
  {
    assert sections[s..][1..] == sections[s + 1..];
  }

  lemma LookupStep(sections: seq<Section>, s: nat, name: string, key: string)
    requires s < |sections|
    ensures FirstValue(Gather(sections[s..], name), key) ==
            var here := FirstValue(sections[s].configs, key);
            if sections[s].name == name && here.Some? then here else FirstValue(Gather(sections[s + 1..], name), key)
  {
    GatherStep(sections, s, name);
    FirstValueAppend(sections[s].configs, Gather(sections[s + 1..], name), key);
  }

  lemma {:induction false} FirstValueAppend(a: seq<Config>, b: seq<Config>, key: string)
    ensures FirstValue(a + b, key) == if FirstValue(a, key).Some? then FirstValue(a, key) else FirstValue(b, key)
  {
    if a == [] {
      assert a + b == b;
    } else {
      assert (a + b)[1..] == a[1..] + b;
      FirstValueAppend(a[1..], b, key);
    }
  }
}
