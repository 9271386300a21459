/** What a printed configuration file reads back as, and what an unterminated last line does. */
module IniProofs {
  import opened Text
  import opened Ini

  // ---------------------------------------------------------------------------------------------
  // Printed files
  // ---------------------------------------------------------------------------------------------

  /** A line as one writes it; `pre`, `post` and the like are the blanks around its parts. */
  datatype Source =
    | Remark(pre: string, mark: char, text: string)
    | Gap
    | Item(pre: string, config: Config, mid: string, separator: char, gap: string, post: string)

  datatype Titled = Titled(pre: string, name: string, post: string)

  /** A line with the line ends that follow it: any mix of `\r` and `\n`, empty lines included. */
  datatype Row = Row(line: Source, eol: string)

  datatype Chapter = Chapter(title: Titled, eol: string, rows: seq<Row>)

  datatype Document = Document(preamble: seq<Row>, chapters: seq<Chapter>)

  predicate Plain(s: string) { forall k | 0 <= k < |s| :: s[k] != '\n' && s[k] != '\r' && s[k] != '\0' }

  predicate Padding(s: string) { forall k | 0 <= k < |s| :: s[k] == ' ' || s[k] == '\t' }

  predicate LineEnd(s: string) { s != "" && forall k | 0 <= k < |s| :: s[k] == '\n' || s[k] == '\r' }

  /** Text trim leaves alone. */
  predicate Tight(s: string) { s != "" ==> !Space(s[0]) && !Space(s[|s| - 1]) }

  predicate Space(c: char) { c == ' ' || c == '\t' || c == '\n' || c == '\r' }

  predicate GoodKey(s: string) {
    && Plain(s) && Tight(s) && (forall k | 0 <= k < |s| :: s[k] != ':' && s[k] != '=')
    && (s != "" ==> s[0] != '#' && s[0] != ';' && s[0] != '[')
  }

  predicate GoodLine(l: Source) {
    match l
    case Remark(pre, mark, text) => Padding(pre) && (mark == '#' || mark == ';') && Plain(text)
    case Gap => true
    case Item(pre, config, mid, separator, gap, post) =>
      && Padding(pre) && Padding(mid) && Padding(gap) && Padding(post) && (separator == ':' || separator == '=')
      && GoodKey(config.key) && Plain(config.value) && Tight(config.value)
  }

  predicate GoodRows(rows: seq<Row>) { forall k | 0 <= k < |rows| :: GoodLine(rows[k].line) && LineEnd(rows[k].eol) }

  predicate GoodChapter(c: Chapter) {
    Padding(c.title.pre) && Plain(c.title.name) && Padding(c.title.post) && LineEnd(c.eol) && GoodRows(c.rows)
  }

  predicate Good(d: Document) { GoodRows(d.preamble) && forall k | 0 <= k < |d.chapters| :: GoodChapter(d.chapters[k]) }

  function Render(l: Source): string {
    match l
    case Remark(pre, mark, text) => pre + [mark] + text
    case Gap => ""
    case Item(pre, config, mid, separator, gap, post) =>
      pre + config.key + mid + [separator] + gap + config.value + post
  }

  function RenderTitle(t: Titled): string { t.pre + "[" + t.name + "]" + t.post }

  function PrintRows(rows: seq<Row>): string {
    if rows == [] then "" else Render(rows[0].line) + rows[0].eol + PrintRows(rows[1..])
  }

  function PrintChapters(cs: seq<Chapter>): string {
    if cs == [] then "" else RenderTitle(cs[0].title) + cs[0].eol + (PrintRows(cs[0].rows) + PrintChapters(cs[1..]))
  }

  function Print(d: Document): string { PrintRows(d.preamble) + PrintChapters(d.chapters) }

  /** The settings among some rows. */
  function Configs(rows: seq<Row>): seq<Config> {
    if rows == [] then []
    else (if rows[0].line.Item? then [rows[0].line.config] else []) + Configs(rows[1..])
  }

  function Contents(cs: seq<Chapter>): seq<Section> {
    if cs == [] then [] else [Section(cs[0].title.name, Configs(cs[0].rows))] + Contents(cs[1..])
  }

  /** Settings before the first title go to the first section; a file without titles is one section without a name. */
  function Content(d: Document, stale: string): seq<Section> {
    var early := Configs(d.preamble);
    if d.chapters == [] then [Section(stale, early)]
    else
      var first := d.chapters[0];
      [Section(first.title.name, early + Configs(first.rows))] + Contents(d.chapters[1..])
  }

  // ---------------------------------------------------------------------------------------------
  // One line
  // ---------------------------------------------------------------------------------------------

  /** Blanks, then text that trim leaves alone, then blanks: trim finds the text. */
  lemma TrimFinds(s: string, b: nat, e: nat, pre: string, text: string, post: string)
    requires b + |pre| + |text| + |post| == e <= |s| && s[b..e] == pre + text + post
    requires Padding(pre) && Padding(post) && Tight(text) && text != ""
    ensures FirstInk(s, b, e) == b + |pre| && InkEnd(s, b, e) == b + |pre| + |text|
    ensures TrimmedAt(s, b, e) == text
  {
    var p, q := b + |pre|, b + |pre| + |text|;
    Thirds(s, b, e, pre, text, post);
    forall i | b <= i < p
      ensures IsBlank(s[i])
    {
      assert s[i] == s[b..p][i - b];
    }
    forall i | q <= i < e
      ensures IsBlank(s[i])
    {
      assert s[i] == s[q..e][i - q];
    }
    assert s[p] == s[p..q][0] && s[q - 1] == s[p..q][q - p - 1];
    FirstInkIs(s, b, p, e);
    InkEndIs(s, b, q, e);
  }

  lemma Thirds(s: string, b: nat, e: nat, x: string, y: string, z: string)
    requires b + |x| + |y| + |z| == e <= |s| && s[b..e] == x + y + z
    ensures s[b..b + |x|] == x && s[b + |x|..e - |z|] == y && s[e - |z|..e] == z
  {
    var all, n := x + y + z, |x| + |y|;
    Slice(s, b, e, 0, |x|);
    Slice(s, b, e, |x|, n);
    Slice(s, b, e, n, e - b);
    assert all[0..|x|] == x && all[|x|..n] == y && all[n..e - b] == z;
  }

  lemma TrimLine(pre: string, text: string, post: string, s: string)
    requires Padding(pre) && Padding(post) && Tight(text) && text != "" && s == pre + text + post
    ensures FirstInk(s, 0, |s|) == |pre| && InkEnd(s, 0, |s|) == |pre| + |text|
    ensures s[|pre|..|pre| + |text|] == text
  {
    assert s[0..|s|] == s;
    TrimFinds(s, 0, |s|, pre, text, post);
  }

  lemma KeyFound(s: string, b: nat, e: nat, key: string, post: string)
    requires b + |key| + |post| == e <= |s| && s[b..e] == key + post && Padding(post) && Tight(key)
    requires key == "" ==> post == ""
    ensures TrimmedAt(s, b, e) == key
  {
    if key != "" {
      assert "" + key == key;
      TrimFinds(s, b, e, "", key, post);
    }
  }

  lemma ValueFound(s: string, b: nat, e: nat, pre: string, value: string)
    requires b + |pre| + |value| == e <= |s| && s[b..e] == pre + value && Padding(pre) && Tight(value)
    requires value == "" ==> pre == ""
    ensures TrimmedAt(s, b, e) == value
  {
    if value != "" {
      assert pre + value + "" == pre + value;
      TrimFinds(s, b, e, pre, value, "");
    }
  }

  lemma RemarkReads(pre: string, mark: char, text: string, stale: string)
    requires GoodLine(Remark(pre, mark, text))
    ensures ParseLine(Render(Remark(pre, mark, text)), stale) == Comment
  {
    var s := Render(Remark(pre, mark, text));
    FirstInkIs(s, 0, |pre|, |s|);
  }

  lemma TitleReads(t: Titled, stale: string)
    requires Padding(t.pre) && Padding(t.post)
    ensures ParseLine(RenderTitle(t), stale) == Header(t.name)
  {
    Assoc(t.pre, "[", t.name);
    Assoc(t.pre, "[" + t.name, "]");
    HeaderReads(t.pre, t.name, "[" + t.name + "]", t.post, RenderTitle(t), stale);
  }

  lemma HeaderReads(pre: string, name: string, text: string, post: string, s: string, stale: string)
    requires Padding(pre) && Padding(post) && text == "[" + name + "]" && s == pre + text + post
    ensures ParseLine(s, stale) == Header(name)
  {
    TrimLine(pre, text, post, s);
    HeaderAt(s, |pre|, name, stale);
  }

  lemma HeaderAt(s: string, b: nat, name: string, stale: string)
    requires b + |name| + 2 <= |s| && s[b..b + |name| + 2] == "[" + name + "]"
    requires FirstInk(s, 0, |s|) == b && InkEnd(s, 0, |s|) == b + |name| + 2
    ensures ParseLine(s, stale) == Header(name)
  {
    HeaderPieces(s, b, name);
  }

  lemma HeaderPieces(s: string, b: nat, name: string)
    requires b + |name| + 2 <= |s| && s[b..b + |name| + 2] == "[" + name + "]"
    ensures s[b] == '[' && s[b + 1..b + |name| + 1] == name
  {
    var text := "[" + name + "]";
    assert s[b] == text[0];
    Slice(s, b, b + |name| + 2, 1, |name| + 1);
    assert text[1..|name| + 1] == name;
  }

  lemma Slice(s: string, b: nat, e: nat, i: nat, j: nat)
    requires b + i <= b + j <= e <= |s|
    ensures s[b..e][i..j] == s[b + i..b + j]
  {
    var w := s[b..e];
    assert |w[i..j]| == |s[b + i..b + j]| == j - i;
    forall k | 0 <= k < j - i
      ensures w[i..j][k] == s[b + i..b + j][k]
    {
      assert w[i..j][k] == w[i + k] == s[b + (i + k)];
    }
  }

  /** Blanks next to the separator count as blanks around the line where the key or the value is empty. */
  lemma ItemReads(l: Source, stale: string)
    requires l.Item? && GoodLine(l)
    ensures ParseLine(Render(l), stale) == Entry(l.config)
  {
    var Item(pre, config, mid, separator, gap, post) := l;
    var key, value := config.key, config.value;
    var mid', gap' := if key == "" then "" else mid, if value == "" then "" else gap;
    var pre', post' := if key == "" then pre + mid else pre, if value == "" then gap + post else post;
    MoveBlanks(pre, key, mid, separator, gap, value, post);
    var text := key + mid' + [separator] + (gap' + value);
    PaddedReads(pre', text, post', config, mid', separator, gap', Render(l), stale);
  }

  lemma MoveBlanks(pre: string, key: string, mid: string, separator: char, gap: string, value: string, post: string)
    ensures var mid', gap' := if key == "" then "" else mid, if value == "" then "" else gap;
            var pre', post' := if key == "" then pre + mid else pre, if value == "" then gap + post else post;
            pre + key + mid + [separator] + gap + value + post ==
            pre' + (key + mid' + [separator] + (gap' + value)) + post'
  {
    var mid', gap' := if key == "" then "" else mid, if value == "" then "" else gap;
    var pre', post' := if key == "" then pre + mid else pre, if value == "" then gap + post else post;
    Assoc(pre + key + mid + [separator], gap, value);
    Assoc(pre + key + mid + [separator], gap + value, post);
    assert pre + key + mid == pre' + (key + mid');
    assert gap + value + post == gap' + value + post';
    Regroup(pre', key + mid', separator, gap' + value, post');
  }

  lemma Regroup(pre: string, left: string, separator: char, right: string, post: string)
    ensures pre + left + [separator] + (right + post) == pre + (left + [separator] + right) + post
  {
  }

  lemma PaddedReads(pre: string, text: string, post: string, config: Config, mid: string, separator: char, gap: string,
                    s: string, stale: string)
    requires s == pre + text + post && text == config.key + mid + [separator] + (gap + config.value)
    requires Padding(pre) && Padding(mid) && Padding(gap) && Padding(post) && IsSeparator(separator)
    requires GoodKey(config.key) && Tight(config.value)
    requires (config.key == "" ==> mid == "") && (config.value == "" ==> gap == "")
    ensures ParseLine(s, stale) == Entry(config)
  {
    TextEnds(config, mid, separator, gap, text);
    TrimLine(pre, text, post, s);
    BodyReads(s, |pre|, |pre| + |text|, text, config, mid, separator, gap, stale);
  }

  lemma BodyReads(s: string, b: nat, e: nat, text: string, config: Config, mid: string, separator: char, gap: string,
                  stale: string)
    requires b <= e <= |s| && s[b..e] == text && text == config.key + mid + [separator] + (gap + config.value)
    requires FirstInk(s, 0, |s|) == b && InkEnd(s, 0, |s|) == e
    requires Padding(mid) && Padding(gap) && IsSeparator(separator) && GoodKey(config.key) && Tight(config.value)
    requires (config.key == "" ==> mid == "") && (config.value == "" ==> gap == "")
    ensures ParseLine(s, stale) == Entry(config)
  {
    var i := b + |config.key| + |mid|;
    BodyPieces(s, b, i, e, text, config, mid, separator, gap);
    PiecesRead(s, b, i, e, config, mid, gap, stale);
  }

  /** Where the parts of a text lie. */
  lemma BodyPieces(s: string, b: nat, i: nat, e: nat, text: string, config: Config, mid: string, separator: char,
                   gap: string)
    requires b <= e <= |s| && s[b..e] == text && text == config.key + mid + [separator] + (gap + config.value)
    requires i == b + |config.key| + |mid|
    requires IsSeparator(separator) && GoodKey(config.key) && Tight(config.value)
    requires (config.key == "" ==> mid == "") && (config.value == "" ==> gap == "")
    ensures i + 1 + |gap| + |config.value| == e && s[i] == separator
    ensures s[b..i] == config.key + mid && s[i + 1..e] == gap + config.value
    ensures s[b] == if config.key == "" then separator else config.key[0]
  {
    Pieces(s, b, config.key + mid, separator, gap + config.value, text);
    assert s[b] == s[b..e][0];
    TextEnds(config, mid, separator, gap, text);
  }

  lemma TextEnds(config: Config, mid: string, separator: char, gap: string, text: string)
    requires text == config.key + mid + [separator] + (gap + config.value)
    requires IsSeparator(separator) && GoodKey(config.key) && Tight(config.value)
    requires (config.key == "" ==> mid == "") && (config.value == "" ==> gap == "")
    ensures text != "" && Tight(text) && text[0] == if config.key == "" then separator else config.key[0]
  {
    assert text[|text| - 1] == if config.value == "" then separator else config.value[|config.value| - 1];
  }

  lemma Pieces(s: string, b: nat, left: string, separator: char, right: string, text: string)
    requires text == left + [separator] + right && b + |text| <= |s| && s[b..b + |text|] == text
    ensures s[b..b + |left|] == left && s[b + |left|] == separator
    ensures s[b + |left| + 1..b + |left| + 1 + |right|] == right
  {
    Slice(s, b, b + |text|, 0, |left|);
    Slice(s, b, b + |text|, |left| + 1, |text|);
    assert s[b + |left|] == text[|left|];
    assert left == text[0..|left|] && right == text[|left| + 1..|text|];
  }

  lemma SeparatorFound(s: string, b: nat, i: nat, e: nat, key: string, mid: string)
    requires b + |key| + |mid| == i < e <= |s| && s[b..i] == key + mid && IsSeparator(s[i])
    requires Padding(mid) && GoodKey(key)
    ensures FirstSeparator(s, b, e) == i
  {
    forall k | b <= k < i
      ensures !IsSeparator(s[k])
    {
      assert s[k] == s[b..i][k - b] == if k - b < |key| then key[k - b] else mid[k - b - |key|];
    }
    FirstSeparatorIs(s, b, i, e);
  }

  lemma EntryAt(s: string, b: nat, i: nat, e: nat, stale: string)
    requires b <= i < e <= |s| && FirstSeparator(s, b, e) == i
    requires FirstInk(s, 0, |s|) == b && InkEnd(s, 0, |s|) == e && s[b] != '#' && s[b] != ';' && s[b] != '['
    ensures ParseLine(s, stale) == Entry(ConfigAt(s, b, i, e, stale))
  {
  }

  lemma ConfigFound(s: string, b: nat, i: nat, e: nat, config: Config, mid: string, gap: string, stale: string)
    requires b + |config.key| + |mid| == i && i + 1 + |gap| + |config.value| == e <= |s|
    requires s[b..i] == config.key + mid && s[i + 1..e] == gap + config.value
    requires Padding(mid) && Padding(gap) && Tight(config.key) && Tight(config.value)
    requires (config.key == "" ==> mid == "") && (config.value == "" ==> gap == "")
    ensures ConfigAt(s, b, i, e, stale) == config
  {
    KeyFound(s, b, i, config.key, mid);
    ValueFound(s, i + 1, e, gap, config.value);
  }

  /** A text whose key is left of the separator at `i` and whose value is right of it. */
  lemma PiecesRead(s: string, b: nat, i: nat, e: nat, config: Config, mid: string, gap: string, stale: string)
    requires b + |config.key| + |mid| == i && i + 1 + |gap| + |config.value| == e <= |s|
    requires s[b..i] == config.key + mid && s[i + 1..e] == gap + config.value && IsSeparator(s[i])
    requires Padding(mid) && Padding(gap) && GoodKey(config.key) && Tight(config.value)
    requires (config.key == "" ==> mid == "") && (config.value == "" ==> gap == "")
    requires s[b] == if config.key == "" then s[i] else config.key[0]
    requires FirstInk(s, 0, |s|) == b && InkEnd(s, 0, |s|) == e
    ensures ParseLine(s, stale) == Entry(config)
  {
    ConfigFound(s, b, i, e, config, mid, gap, stale);
    SeparatorFound(s, b, i, e, config.key, mid);
    EntryAt(s, b, i, e, stale);
  }

  /** A line without a separator is a key whose value is whatever memory holds behind the line. */
  lemma BareReads(pre: string, text: string, post: string, s: string, stale: string)
    requires Padding(pre) && Padding(post) && text != "" && GoodKey(text) && s == pre + text + post
    ensures ParseLine(s, stale) == Entry(Config(text, stale))
  {
    TrimLine(pre, text, post, s);
    BareAt(s, |pre|, |pre| + |text|, text, stale);
  }

  lemma BareAt(s: string, b: nat, e: nat, text: string, stale: string)
    requires b < e <= |s| && s[b..e] == text && GoodKey(text) && FirstInk(s, 0, |s|) == b && InkEnd(s, 0, |s|) == e
    ensures ParseLine(s, stale) == Entry(Config(text, stale))
  {
    BareFinds(s, b, e, text);
  }

  lemma BareFinds(s: string, b: nat, e: nat, text: string)
    requires b < e <= |s| && s[b..e] == text && GoodKey(text)
    ensures FirstSeparator(s, b, e) == e && TrimmedAt(s, b, e) == text && s[b] == text[0]
  {
    assert s[b] == text[0] && s[e - 1] == text[e - b - 1];
    forall k | b <= k < e
      ensures s[k] != ':' && s[k] != '='
    {
      assert s[k] == text[k - b];
    }
    FirstSeparatorIs(s, b, e, e);
    FirstInkIs(s, b, b, e);
    InkEndIs(s, b, e, e);
  }

  /** A bracket alone is a header named by the blanks behind it. */
  lemma LoneBracket(pre: string, post: string, s: string, stale: string)
    requires Padding(pre) && Padding(post) && s == pre + "[" + post
    ensures ParseLine(s, stale) == Header(post)
  {
    TrimLine(pre, "[", post, s);
    assert s[|pre|] == '[' && s[|pre| + 1..] == post;
  }

  /** A line of blanks is an empty key with such a value. */
  lemma BlankReads(s: string, stale: string)
    requires Padding(s)
    ensures ParseLine(s, stale) == Entry(Config("", stale))
  {
    FirstInkIs(s, 0, |s|, |s|);
    InkEndIs(s, 0, 0, |s|);
  }

  // ---------------------------------------------------------------------------------------------
  // Lines
  // ---------------------------------------------------------------------------------------------

  lemma {:induction false} SkipEnds(eol: string, rest: string)
    requires forall k | 0 <= k < |eol| :: IsEnd(eol[k])
    ensures Lines(eol + rest) == Lines(rest)
  {
    if eol == "" {
      assert eol + rest == rest;
    } else {
      assert (eol + rest)[1..] == eol[1..] + rest;
      SkipEnds(eol[1..], rest);
    }
  }

  lemma LinesStep(line: string, eol: string, rest: string)
    requires LineEnd(eol) && forall k | 0 <= k < |line| :: !IsEnd(line[k])
    ensures Lines(line + eol + rest) == if line == "" then Lines(rest) else [line] + Lines(rest)
  {
    var s := line + eol + rest;
    LineLengthIs(s, |line|);
    assert s[..|line|] == line;
    assert s[|line| + 1..] == eol[1..] + rest;
    SkipEnds(eol[1..], rest);
  }

  lemma RenderPlain(l: Source)
    requires GoodLine(l)
    ensures Plain(Render(l)) && '\0' !in Render(l) && (Render(l) == "" <==> l.Gap?)
  {
  }

  /** Reading one row of a document. */
  lemma RowReads(row: Row, rest: string, cur: Section, open: bool, stale: string)
    requires GoodLine(row.line) && LineEnd(row.eol)
    ensures Collect(Lines(Render(row.line) + row.eol + rest), cur, open, stale, false) ==
            Collect(Lines(rest), Section(cur.name, cur.configs + Configs([row])), open, stale, false)
  {
    var line := Render(row.line);
    RenderPlain(row.line);
    LinesStep(line, row.eol, rest);
    CStringClean(line);
    CollectCons(line, Lines(rest), cur, open, stale, false);
    assert Configs([row]) == if row.line.Item? then [row.line.config] else [];
    assert cur.configs + [] == cur.configs;
    match row.line {
      case Remark(pre, mark, text) => RemarkReads(pre, mark, text, stale);
      case Gap =>
      case Item(_, _, _, _, _, _) => ItemReads(row.line, stale);
    }
  }

  lemma {:induction false} RowsRead(rows: seq<Row>, rest: string, cur: Section, open: bool, stale: string)
    requires GoodRows(rows)
    ensures Collect(Lines(PrintRows(rows) + rest), cur, open, stale, false) ==
            Collect(Lines(rest), Section(cur.name, cur.configs + Configs(rows)), open, stale, false)
  {
    if rows == [] {
      assert "" + rest == rest && cur.configs + [] == cur.configs;
    } else {
      var more := PrintRows(rows[1..]) + rest;
      Assoc(Render(rows[0].line) + rows[0].eol, PrintRows(rows[1..]), rest);
      RowReads(rows[0], more, cur, open, stale);
      var next := Section(cur.name, cur.configs + Configs([rows[0]]));
      RowsRead(rows[1..], rest, next, open, stale);
      ConfigsCons(cur.configs, rows);
    }
  }

  lemma ConfigsCons(before: seq<Config>, rows: seq<Row>)
    requires rows != []
    ensures before + Configs([rows[0]]) + Configs(rows[1..]) == before + Configs(rows)
  {
    var own := if rows[0].line.Item? then [rows[0].line.config] else [];
    assert Configs([rows[0]]) == own + Configs([]) == own;
    Assoc(before, own, Configs(rows[1..]));
  }

  /** Reading a title. */
  lemma TitleRow(c: Chapter, rest: string, cur: Section, open: bool, stale: string)
    requires GoodChapter(c)
    ensures Collect(Lines(RenderTitle(c.title) + c.eol + rest), cur, open, stale, false) ==
            if open then [cur] + Collect(Lines(rest), Section(c.title.name, []), true, stale, false)
            else Collect(Lines(rest), cur.(name := c.title.name), true, stale, false)
  {
    var line := RenderTitle(c.title);
    assert Plain(line) && '\0' !in line;
    LinesStep(line, c.eol, rest);
    CStringClean(line);
    CollectCons(line, Lines(rest), cur, open, stale, false);
    TitleReads(c.title, stale);
  }

  lemma {:induction false} ChaptersRead(cs: seq<Chapter>, cur: Section, stale: string)
    requires forall k | 0 <= k < |cs| :: GoodChapter(cs[k])
    ensures Collect(Lines(PrintChapters(cs)), cur, true, stale, false) == [cur] + Contents(cs)
  {
    if cs != [] {
      var c, more := cs[0], PrintChapters(cs[1..]);
      TitleRow(c, PrintRows(c.rows) + more, cur, true, stale);
      RowsRead(c.rows, more, Section(c.title.name, []), true, stale);
      assert [] + Configs(c.rows) == Configs(c.rows);
      ChaptersRead(cs[1..], Section(c.title.name, Configs(c.rows)), stale);
    }
  }

  // ---------------------------------------------------------------------------------------------
  // Round trip
  // ---------------------------------------------------------------------------------------------

  /** Whatever the comments, gaps, padding, separators and line ends, the file reads back as its settings. */
  lemma DocumentReads(d: Document, stale: string)
    requires Good(d)
    ensures Sections(Print(d), stale) == Content(d, stale)
  {
    var cur := Section(stale, []);
    RowsRead(d.preamble, PrintChapters(d.chapters), cur, false, stale);
    var early := Section(stale, Configs(d.preamble));
    assert [] + Configs(d.preamble) == Configs(d.preamble);
    if d.chapters != [] {
      var c, more := d.chapters[0], PrintChapters(d.chapters[1..]);
      TitleRow(c, PrintRows(c.rows) + more, early, false, stale);
      var named := Section(c.title.name, early.configs);
      RowsRead(c.rows, more, named, true, stale);
      ChaptersRead(d.chapters[1..], Section(c.title.name, early.configs + Configs(c.rows)), stale);
    }
  }

  lemma {:induction false} RowsTerminated(rows: seq<Row>)
    requires GoodRows(rows)
    ensures Terminated(PrintRows(rows))
  {
    if rows != [] {
      RowsTerminated(rows[1..]);
    }
  }

  lemma {:induction false} ChaptersTerminated(cs: seq<Chapter>)
    requires forall k | 0 <= k < |cs| :: GoodChapter(cs[k])
    ensures Terminated(PrintChapters(cs))
  {
    if cs != [] {
      RowsTerminated(cs[0].rows);
      ChaptersTerminated(cs[1..]);
    }
  }

  /** parse_ini inverts printing. */
  lemma RoundTrip(d: Document, stale: string)
    requires Good(d)
    ensures Parsed(Print(d), stale) == Content(d, stale)
    ensures d.chapters != [] && Configs(d.preamble) == [] ==> Parsed(Print(d), stale) == Contents(d.chapters)
  {
    RowsTerminated(d.preamble);
    ChaptersTerminated(d.chapters);
    assert Terminated(Print(d));
    DocumentReads(d, stale);
    if d.chapters != [] && Configs(d.preamble) == [] {
      assert [] + Configs(d.chapters[0].rows) == Configs(d.chapters[0].rows);
    }
  }

  // ---------------------------------------------------------------------------------------------
  // Files that break off
  // ---------------------------------------------------------------------------------------------

  predicate IsTitle(line: string, stale: string) { ParseLine(CString(line), stale).Header? }

  /** The last line is a header, and not the first one. */
  predicate LateTitle(lines: seq<string>, open: bool, stale: string) {
    && lines != [] && IsTitle(lines[|lines| - 1], stale)
    && (open || exists k | 0 <= k < |lines| - 1 :: IsTitle(lines[k], stale))
  }

  lemma {:induction false} CutLosesSection(lines: seq<string>, cur: Section, open: bool, stale: string)
    ensures LateTitle(lines, open, stale) ==>
              |Collect(lines, cur, open, stale, true)| + 1 == |Collect(lines, cur, open, stale, false)|
    ensures !LateTitle(lines, open, stale) ==>
              Collect(lines, cur, open, stale, true) == Collect(lines, cur, open, stale, false)
    decreases |lines|
  {
    if lines != [] {
      var kind, more := ParseLine(CString(lines[0]), stale), lines[1..];
      if more != [] {
        assert LateTitle(lines, open, stale) == LateTitle(more, open || kind.Header?, stale) by {
          assert forall k | 0 <= k < |more| :: more[k] == lines[k + 1];
          assert IsTitle(lines[0], stale) == kind.Header?;
        }
      }
      match kind {
        case Comment => CutLosesSection(more, cur, open, stale);
        case Entry(c) => CutLosesSection(more, AddConfig(cur, c), open, stale);
        case Header(name) =>
          CutLosesSection(more, Section(name, []), true, stale);
          CutLosesSection(more, cur.(name := name), true, stale);
      }
    }
  }

  /** The reader gets a file right exactly unless it breaks off in a header that is not the first. */
  lemma ReadsRightIff(file: string, stale: string)
    ensures Parsed(file, stale) == Sections(file, stale) <==>
            Terminated(file) || !LateTitle(Lines(file), false, stale)
  {
    CutLosesSection(Lines(file), Section(stale, []), false, stale);
  }

  lemma LoneTitle(t: Titled)
    requires Padding(t.pre) && Plain(t.name) && Padding(t.post)
    ensures RenderTitle(t) != "" && Lines(RenderTitle(t)) == [RenderTitle(t)] && !Terminated(RenderTitle(t))
    ensures Plain(RenderTitle(t))
    ensures CString(RenderTitle(t)) == RenderTitle(t)
  {
    var s := RenderTitle(t);
    assert Plain(s) && NoNul(s);
    LineLengthIs(s, |s|);
    assert s[..|s|] == s;
    CStringClean(s);
  }

  /** Two headers, the second cut off: the section of the first is read under the name of the second. */
  lemma SecondTitleWins(a: Titled, b: Titled, file: string, stale: string)
    requires Padding(a.pre) && Plain(a.name) && Padding(a.post) && Padding(b.pre) && Plain(b.name) && Padding(b.post)
    requires file == RenderTitle(a) + "\n" + RenderTitle(b)
    ensures Sections(file, stale) == [Section(a.name, []), Section(b.name, [])]
    ensures Parsed(file, stale) == [Section(b.name, [])]
  {
    LoneTitle(a);
    LoneTitle(b);
    LinesOfPair(RenderTitle(a), RenderTitle(b), file);
    TitleReads(a, stale);
    TitleReads(b, stale);
    TwoTitles(RenderTitle(a), RenderTitle(b), a.name, b.name, stale, false);
    TwoTitles(RenderTitle(a), RenderTitle(b), a.name, b.name, stale, true);
  }

  lemma LinesOfPair(x: string, y: string, file: string)
    requires file == x + "\n" + y && x != "" && (forall k | 0 <= k < |x| :: !IsEnd(x[k]))
    requires Lines(y) == [y] && y != "" && !Terminated(y)
    ensures Lines(file) == [x] + [y] && !Terminated(file)
  {
    LinesStep(x, "\n", y);
    assert file[|file| - 1] == y[|y| - 1];
  }

  lemma TwoTitles(x: string, y: string, a: string, b: string, stale: string, cut: bool)
    requires ParseLine(CString(x), stale) == Header(a) && ParseLine(CString(y), stale) == Header(b)
    ensures Collect([x] + [y], Section(stale, []), false, stale, cut) ==
            if cut then [Section(b, [])] else [Section(a, []), Section(b, [])]
  {
    CollectCons(x, [y], Section(stale, []), false, stale, cut);
    CollectCons(y, [], Section(a, []), true, stale, cut);
    assert [y] + [] == [y];
  }
}
