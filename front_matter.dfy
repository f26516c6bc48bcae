/**
 * Reading a fetched blog post: the title from a leading `# ` heading, the
 * `date`, `readTime` and `tags` settings from `<!-- key: value -->` comments
 * among the first ten lines, and the display body with every comment line
 * removed (`loadBlogPost` in src/components/BlogPost.tsx).
 */
module FrontMatter {
  import opened Wrappers
  import opened JsString
  import opened CommentPattern

  /** A loaded post, as it is stored in the page state. */
  datatype Post = Post(id: string, title: string, date: string, readTime: string, tags: seq<string>, content: string)

  /** The three values the metadata comments can set. */
  datatype Metadata = Metadata(date: string, readTime: string, tags: seq<string>)

  const DefaultReadTime: string := "5 min read"

  /** Only lines with an index below this are read for metadata. */
  const MetadataWindow: nat := 10

  /** Before any comment is read: `today` as the date, the default read time and no tags. */
  function Defaults(today: string): Metadata {
    Metadata(today, DefaultReadTime, [])
  }

  datatype Key = Date | ReadTime | Tags {

    /** A trimmed line is read as a setting of this key when it starts with this text. */
    function Prefix(): string {
      match this
      case Date => "<!-- date:"
      case ReadTime => "<!-- readTime:"
      case Tags => "<!-- tags:"
    }

    /** The text the key's regular expression `key:\s*(.+?)\s*-->` starts with. */
    function Label(): string {
      match this
      case Date => "date:"
      case ReadTime => "readTime:"
      case Tags => "tags:"
    }
  }

  /** The prefix is the comment opening followed by the label, and its sixth character tells the keys apart. */
  lemma PrefixShape(key: Key)
    ensures key.Prefix() == "<!-- " + key.Label()
    ensures key.Prefix()[5] == match key case Date => 'd' case ReadTime => 'r' case Tags => 't'
  {
  }

  /** No line is read as a setting of two different keys. */
  lemma PrefixesExclusive(t: string, k1: Key, k2: Key)
    requires k1.Prefix() <= t && k2.Prefix() <= t
    ensures k1 == k2
  {
    PrefixShape(k1);
    PrefixShape(k2);
    assert t[5] == k1.Prefix()[5] && t[5] == k2.Prefix()[5];
  }

  /** `tagMatch.split(',').map(tag => tag.trim())`. */
  function SplitTags(v: string): (tags: seq<string>)
  {
    var pieces := Split(v, ',');
    seq(|pieces|, i requires 0 <= i < |pieces| => Trim(pieces[i]))
  }

  /**
   * One tag per comma-separated piece, empty pieces included; no tag holds a
   * comma or begins or ends with whitespace.
   */
  lemma SplitTagsPieces(v: string)
    ensures |SplitTags(v)| == multiset(v)[','] + 1
    ensures forall i :: 0 <= i < |SplitTags(v)| ==> ',' !in SplitTags(v)[i]
    ensures forall i :: 0 <= i < |SplitTags(v)| ==> var t := SplitTags(v)[i]; t == [] || (!IsSpace(t[0]) && !IsSpace(t[|t| - 1]))
  {
    var pieces := Split(v, ',');
    SplitPieces(v, ',');
    forall i | 0 <= i < |pieces|
      ensures var t := Trim(pieces[i]); ',' !in t && (t == [] || (!IsSpace(t[0]) && !IsSpace(t[|t| - 1])))
    {
      TrimHasNo(pieces[i], ',');
      TrimEnds(pieces[i]);
    }
  }

  /** Trimming never brings in a character that was not there. */
  lemma TrimHasNo(s: string, c: char)
    requires c !in s
    ensures c !in Trim(s)
  {
    var r := Trim(s);
    TrimSlice(s);
    var i :| 0 <= i <= |s| && r <= s[i..] && AllSpace(s[..i]) && AllSpace(s[i + |r|..]);
    forall k | 0 <= k < |r| ensures r[k] != c {
      assert r[k] == s[i..][k] == s[i + k];
    }
  }

  /**
   * A tag list written as pieces separated by commas reads back as the trimmed
   * pieces, in order: `a, b` gives `a` and `b`, and `a,,b` gives `a`, `` and `b`.
   */
  lemma {:induction false} TagsRoundTrip(pieces: seq<string>)
    requires |pieces| >= 1
    requires forall i :: 0 <= i < |pieces| ==> ',' !in pieces[i]
    ensures |SplitTags(Join(pieces, ','))| == |pieces|
    ensures forall i :: 0 <= i < |pieces| ==> SplitTags(Join(pieces, ','))[i] == Trim(pieces[i])
  {
    SplitJoin(pieces, ',');
  }

  /**
   * The value a line sets for `key`: the first capture of the key's pattern in
   * the trimmed line, when that line starts with the key's prefix.
   */
  function Setting(line: string, key: Key): (r: Option<string>)
    ensures r.Some? ==> key.Prefix() <= Trim(line) && r.value != []
  {
    var t := Trim(line);
    if key.Prefix() <= t then Capture(t, key.Label()) else None
  }

  /**
   * One pass of the metadata loop over a line: the first of the three prefixes
   * the trimmed line starts with selects the value to overwrite. A capture is
   * never empty, so `capture || previous` is the capture whenever there is one.
   */
  function ScanLine(m: Metadata, line: string): (r: Metadata)
    ensures m.date != "" ==> r.date != ""
    ensures m.readTime != "" ==> r.readTime != ""
  {
    var t := Trim(line);
    if Date.Prefix() <= t then
      m.(date := Capture(t, Date.Label()).GetOr(m.date))
    else if ReadTime.Prefix() <= t then
      m.(readTime := Capture(t, ReadTime.Label()).GetOr(m.readTime))
    else if Tags.Prefix() <= t then
      match Capture(t, Tags.Label())
      case Some(v) => m.(tags := SplitTags(v))
      case None => m
    else m
  }

  /** The metadata after the loop has visited `lines` in order, starting from `init`. */
  function ScanLines(init: Metadata, lines: seq<string>): Metadata
    decreases |lines|
  {
    if lines == [] then init
    else ScanLine(ScanLines(init, lines[..|lines| - 1]), lines[|lines| - 1])
  }

  /** The field of `m` that `key` names, set from the text `v`. */
  function Set(m: Metadata, key: Key, v: string): Metadata {
    match key
    case Date => m.(date := v)
    case ReadTime => m.(readTime := v)
    case Tags => m.(tags := SplitTags(v))
  }

  /** `m1` and `m2` hold the same value for `key`. */
  predicate Agree(m1: Metadata, m2: Metadata, key: Key) {
    match key
    case Date => m1.date == m2.date
    case ReadTime => m1.readTime == m2.readTime
    case Tags => m1.tags == m2.tags
  }

  /** A line overwrites a key's value exactly when it holds a setting for that key. */
  lemma ScanLineSetting(m: Metadata, line: string, key: Key)
    ensures Setting(line, key).None? ==> Agree(ScanLine(m, line), m, key)
    ensures Setting(line, key).Some? ==> Agree(ScanLine(m, line), Set(m, key, Setting(line, key).value), key)
  {
    var t := Trim(line);
    if key.Prefix() <= t {
      forall k: Key | k.Prefix() <= t ensures k == key {
        PrefixesExclusive(t, k, key);
      }
    }
  }

  /** The scan of a line list, then one more line. */
  lemma ScanLinesStep(init: Metadata, lines: seq<string>, i: nat)
    requires i < |lines|
    ensures ScanLines(init, lines[..i + 1]) == ScanLine(ScanLines(init, lines[..i]), lines[i])
  {
    assert lines[..i + 1][..i] == lines[..i];
  }

  /** A date or read time that starts out non-empty stays non-empty: a setting always holds at least one character. */
  lemma {:induction false} ScanKeepsNonEmpty(init: Metadata, lines: seq<string>)
    ensures init.date != "" ==> ScanLines(init, lines).date != ""
    ensures init.readTime != "" ==> ScanLines(init, lines).readTime != ""
    decreases |lines|
  {
    if lines != [] {
      ScanKeepsNonEmpty(init, lines[..|lines| - 1]);
    }
  }

  /** Scanning two line lists one after the other is scanning their concatenation. */
  lemma {:induction false} ScanLinesAppend(init: Metadata, a: seq<string>, b: seq<string>)
    ensures ScanLines(init, a + b) == ScanLines(ScanLines(init, a), b)
    decreases |b|
  {
    if b == [] {
      assert a + b == a;
    } else {
      var b' := b[..|b| - 1];
      ScanLinesAppend(init, a, b');
      assert (a + b)[..|a + b| - 1] == a + b';
    }
  }

  /** Scanning a line list is scanning its tail from the result of scanning its head. */
  lemma ScanLinesSplit(init: Metadata, lines: seq<string>, i: nat)
    requires i <= |lines|
    ensures ScanLines(init, lines) == ScanLines(ScanLines(init, lines[..i]), lines[i..])
  {
    assert lines[..i] + lines[i..] == lines;
    ScanLinesAppend(init, lines[..i], lines[i..]);
  }

  /**
   * Later comments overwrite earlier ones: the value of `key` after the scan is
   * the one set by the last line that holds a setting for it.
   */
  lemma LastSettingWins(init: Metadata, lines: seq<string>, key: Key, j: nat, v: string)
    requires j < |lines| && Setting(lines[j], key) == Some(v)
    requires forall k :: j < k < |lines| ==> Setting(lines[k], key).None?
    ensures Agree(ScanLines(init, lines), Set(init, key, v), key)
  {
    var after := lines[j + 1..];
    var prev := ScanLines(init, lines[..j]);
    var mid := ScanLine(prev, lines[j]);
    assert ScanLines(init, lines) == ScanLines(mid, after) by {
      ScanLinesSplit(init, lines, j + 1);
      ScanLinesStep(init, lines, j);
    }
    assert Agree(mid, Set(prev, key, v), key) by {
      ScanLineSetting(prev, lines[j], key);
    }
    assert Agree(ScanLines(mid, after), mid, key) by {
      forall k | 0 <= k < |after| ensures Setting(after[k], key).None? {
        assert after[k] == lines[j + 1 + k];
      }
      NoSettingKeepsValue(mid, after, key);
    }
  }

  /** A key no line sets keeps its initial value. */
  lemma {:induction false} NoSettingKeepsValue(init: Metadata, lines: seq<string>, key: Key)
    requires forall k :: 0 <= k < |lines| ==> Setting(lines[k], key).None?
    ensures Agree(ScanLines(init, lines), init, key)
    decreases |lines|
  {
    if lines != [] {
      var front := lines[..|lines| - 1];
      forall k | 0 <= k < |front| ensures Setting(front[k], key).None? {
        assert front[k] == lines[k];
      }
      NoSettingKeepsValue(init, front, key);
      ScanLineSetting(ScanLines(init, front), lines[|lines| - 1], key);
    }
  }

  /** The lines the metadata loop visits: those with an index below `min(10, |lines|)`. */
  function Window(lines: seq<string>): (w: seq<string>)
    ensures w <= lines && |w| == if |lines| < MetadataWindow then |lines| else MetadataWindow
  {
    if |lines| < MetadataWindow then lines else lines[..MetadataWindow]
  }

  function ReadMetadata(lines: seq<string>, today: string): Metadata {
    ScanLines(Defaults(today), Window(lines))
  }

  /** `Blog Post <id>`, unless the untrimmed first line starts with `# `: then that line's trimmed text after the marker. */
  function Title(id: string, first: string): string {
    if "# " <= first then Trim(first[2..]) else "Blog Post " + id
  }

  /** A line that the body leaves out: its trimmed form starts with `<!--`. */
  predicate IsComment(line: string) {
    "<!--" <= Trim(line)
  }

  /** `lines.filter(line => !line.trim().startsWith('<!--'))`. */
  function StripComments(lines: seq<string>): (kept: seq<string>)
    ensures |kept| <= |lines|
    decreases |lines|
  {
    if lines == [] then []
    else (if IsComment(lines[0]) then [] else [lines[0]]) + StripComments(lines[1..])
  }

  /** The body keeps exactly the lines that are not comments. */
  lemma {:induction false} StripKeeps(lines: seq<string>)
    ensures forall i :: 0 <= i < |StripComments(lines)| ==> !IsComment(StripComments(lines)[i])
    ensures forall x :: x in StripComments(lines) <==> x in lines && !IsComment(x)
    decreases |lines|
  {
    if lines != [] {
      StripKeeps(lines[1..]);
      assert lines == [lines[0]] + lines[1..];
    }
  }

  /** The display body: the lines that are not comments, joined with newlines. */
  function CleanContent(lines: seq<string>): string {
    Join(StripComments(lines), '\n')
  }

  /** What `loadBlogPost` stores for a post whose markdown text is `content`. */
  function ParsePost(id: string, content: string, today: string): (post: Post)
    ensures post.id == id
    ensures post.readTime != ""
    ensures today != "" ==> post.date != ""
  {
    var lines := Split(content, '\n');
    ScanKeepsNonEmpty(Defaults(today), Window(lines));
    var m := ReadMetadata(lines, today);
    Post(id, Title(id, lines[0]), m.date, m.readTime, m.tags, CleanContent(lines))
  }

  // ---------------------------------------------------------------- the documented comment form

  /** A comment written `<!-- key: value -->` is read as setting `key` to `value`. */
  lemma CommentSets(key: Key, value: string)
    requires PlainValue(value)
    ensures Setting(Comment(key.Label(), value), key) == Some(value)
  {
    var c := Comment(key.Label(), value);
    PrefixShape(key);
    assert c == key.Prefix() + " " + value + " -->";
    assert c[0] == '<' && c[|c| - 1] == '>';
    TrimUnchanged(c);
    CommentRoundTrip(key.Label(), value);
  }

  /**
   * A date comment with nothing after the key still sets the date: the lazy
   * capture must take at least one character, so it takes the space before
   * `-->`.
   */
  lemma EmptyDateCommentSetsSpace()
    ensures Setting("<!-- date: -->", Date) == Some(" ")
  {
    var s := "<!-- date: -->";
    assert s[0] == '<' && s[|s| - 1] == '>';
    TrimUnchanged(s);
    assert Date.Prefix() <= s;
    EmptyDateCapture();
  }

  /** The search behind `EmptyDateCommentSetsSpace`: the match starts at `date:`, and `.+?` takes the one space. */
  lemma EmptyDateCapture()
    ensures Capture("<!-- date: -->", "date:") == Some(" ")
  {
    var s := "<!-- date: -->";
    forall p | 0 <= p < 5 ensures !NameAt(s, "date:", p) {
      assert s[p..p + 5][0] == s[p] != 'd';
    }
    assert NameAt(s, "date:", 5);
    assert SpaceRun(s, 10) == 1;
    assert CaptureEnd(s, 11) == None;
    assert CaptureEnd(s, 10) == Some(11);
    assert AfterName(s, 10, 1) == Some((10, 11));
    SearchResultAt(s, "date:", 5, 10, 10, 11);
    assert MatchFrom(s, "date:", 0) == MatchFrom(s, "date:", 5);
    assert s[10..11] == " ";
  }

  // ---------------------------------------------------------------- the title

  /** The first line of a text: up to its first newline, or all of it. */
  lemma FirstLine(content: string, e: nat)
    requires e <= |content| && '\n' !in content[..e] && (e == |content| || content[e] == '\n')
    ensures Split(content, '\n')[0] == content[..e]
  {
    FirstPiece(content, '\n');
    SplitPieces(content, '\n');
    PrefixBeforeNewline(content, Split(content, '\n')[0], e);
  }

  /** Two newline-free prefixes of `s` that each end at a newline or at the end of `s` are the same. */
  lemma PrefixBeforeNewline(s: string, first: string, e: nat)
    requires first <= s && '\n' !in first && (|first| == |s| || s[|first|] == '\n')
    requires e <= |s| && '\n' !in s[..e] && (e == |s| || s[e] == '\n')
    ensures first == s[..e]
  {
    assert |first| >= e by {
      forall k | 0 <= k < e ensures s[k] != '\n' {
        assert s[..e][k] == s[k];
      }
    }
    assert |first| <= e by {
      assert forall k :: 0 <= k < |first| ==> first[k] == s[k];
    }
  }

  /** A post whose text starts with `# ` takes as its title the trimmed rest of the first line. */
  lemma HeadingTitle(id: string, content: string, today: string, e: nat)
    requires "# " <= content
    requires 2 <= e <= |content| && '\n' !in content[..e] && (e == |content| || content[e] == '\n')
    ensures ParsePost(id, content, today).title == Trim(content[2..e])
  {
    FirstLine(content, e);
    assert content[..e][2..] == content[2..e];
  }

  /** A post whose text does not start with `# ` is titled `Blog Post <id>`. */
  lemma DefaultTitle(id: string, content: string, today: string)
    requires !("# " <= content)
    ensures ParsePost(id, content, today).title == "Blog Post " + id
  {
    FirstPiece(content, '\n');
  }

  // ---------------------------------------------------------------- the metadata window

  /**
   * Whatever follows the tenth line never changes the title or the metadata:
   * appending text after a text of ten or more lines leaves them as they were.
   */
  lemma MetadataIgnoresLaterLines(id: string, head: string, tail: string, today: string)
    requires multiset(head)['\n'] >= MetadataWindow - 1
    ensures var long := ParsePost(id, head + "\n" + tail, today);
      var short := ParsePost(id, head, today);
      long.title == short.title && long.date == short.date && long.readTime == short.readTime && long.tags == short.tags
  {
    var a := Split(head, '\n');
    var b := Split(tail, '\n');
    SplitAppend(head, '\n', tail);
    SplitPieces(head, '\n');
    assert head + "\n" + tail == head + ['\n'] + tail;
    assert Window(a + b) == Window(a);
    assert (a + b)[0] == a[0];
  }

  /** With no setting for `key` among the first ten lines, the key keeps its default. */
  lemma DefaultsKept(lines: seq<string>, today: string, key: Key)
    requires forall k :: 0 <= k < |lines| && k < MetadataWindow ==> Setting(lines[k], key).None?
    ensures Agree(ReadMetadata(lines, today), Defaults(today), key)
  {
    var w := Window(lines);
    forall k | 0 <= k < |w| ensures Setting(w[k], key).None? {
      assert w[k] == lines[k];
    }
    NoSettingKeepsValue(Defaults(today), w, key);
  }

  /** The value of `key` is the one set by the last line of the first ten that holds a setting for it. */
  lemma LastSettingInWindow(lines: seq<string>, today: string, key: Key, j: nat, v: string)
    requires j < |lines| && j < MetadataWindow && Setting(lines[j], key) == Some(v)
    requires forall k :: j < k < |lines| && k < MetadataWindow ==> Setting(lines[k], key).None?
    ensures Agree(ReadMetadata(lines, today), Set(Defaults(today), key, v), key)
  {
    var w := Window(lines);
    assert w[j] == lines[j];
    forall k | j < k < |w| ensures Setting(w[k], key).None? {
      assert w[k] == lines[k];
    }
    LastSettingWins(Defaults(today), w, key, j, v);
  }

  // ---------------------------------------------------------------- the body

  /** Filtering keeps the order: it filters each part of a concatenation on its own. */
  lemma {:induction false} StripAppend(a: seq<string>, b: seq<string>)
    ensures StripComments(a + b) == StripComments(a) + StripComments(b)
    decreases |a|
  {
    if a == [] {
      assert a + b == b;
    } else {
      StripAppend(a[1..], b);
      var head := if IsComment(a[0]) then [] else [a[0]];
      AppendTail(a, b);
      calc {
        StripComments(a + b);
        head + StripComments(a[1..] + b);
        head + (StripComments(a[1..]) + StripComments(b));
        { assert head + (StripComments(a[1..]) + StripComments(b)) == (head + StripComments(a[1..])) + StripComments(b); }
        StripComments(a) + StripComments(b);
      }
    }
  }

  /** The head and the tail of a concatenation whose left part is not empty. */
  lemma AppendTail<T>(a: seq<T>, b: seq<T>)
    requires |a| > 0
    ensures (a + b)[0] == a[0] && (a + b)[1..] == a[1..] + b
  {
  }

  /** Lines none of which is a comment are kept as they are. */
  lemma {:induction false} NoCommentsUnchanged(lines: seq<string>)
    requires forall i :: 0 <= i < |lines| ==> !IsComment(lines[i])
    ensures StripComments(lines) == lines
    decreases |lines|
  {
    if lines != [] {
      NoCommentsUnchanged(lines[1..]);
    }
  }

  /** Stripping the comments twice is stripping them once. */
  lemma {:induction false} StripIdempotent(lines: seq<string>)
    ensures StripComments(StripComments(lines)) == StripComments(lines)
  {
    StripKeeps(lines);
    NoCommentsUnchanged(StripComments(lines));
  }

  /** A blank or whitespace-only line is not a comment, so the body keeps it. */
  lemma BlankLineKept(line: string)
    requires AllSpace(line)
    ensures !IsComment(line)
  {
    TrimAllSpace(line);
  }

  /**
   * The body is stable: reading it again as a post text, splitting it into
   * lines and stripping comments, gives it back unchanged.
   */
  lemma CleanContentStable(content: string)
    ensures var body := CleanContent(Split(content, '\n'));
      CleanContent(Split(body, '\n')) == body
  {
    var lines := Split(content, '\n');
    var kept := StripComments(lines);
    var body := Join(kept, '\n');
    SplitPieces(content, '\n');
    if kept == [] {
      assert Split(body, '\n') == [""];
      assert Trim("") == "";
    } else {
      StripKeeps(lines);
      forall i | 0 <= i < |kept| ensures '\n' !in kept[i] {
        assert kept[i] in lines;
      }
      SplitJoin(kept, '\n');
      StripIdempotent(lines);
    }
  }

  /** A leading `# ` heading line stays at the top of the body. */
  lemma HeadingKept(id: string, content: string, today: string)
    requires "# " <= content
    ensures Split(content, '\n')[0] <= ParsePost(id, content, today).content
  {
    var lines := Split(content, '\n');
    var first := lines[0];
    assert !IsComment(first) by {
      FirstPiece(content, '\n');
      SplitPieces(content, '\n');
      assert |first| >= 2 by {
        assert content[0] != '\n' && content[1] != '\n';
      }
      assert TrimStart(first) == first;
      var r := TrimEnd(first);
      TrimEndSlice(first);
      assert !AllSpace(first[0..]) by {
        assert first[0..][0] == first[0];
      }
      assert r[0] == '#';
    }
    assert lines == [first] + lines[1..];
    StripAppend([first], lines[1..]);
    JoinStartsWithFirst(StripComments(lines), '\n');
  }

  /**
   * The loader's own steps: split into lines, take the title, overwrite
   * date, read time and tags line by line over the window, strip the comments.
   */
  method ReadPost(id: string, content: string, today: string) returns (post: Post)
    ensures post == ParsePost(id, content, today)
  {
    var lines := Split(content, '\n');
    var title := "Blog Post " + id;
    if "# " <= lines[0] {
      title := Trim(lines[0][2..]);
    }
    var date, readTime, tags := ScanWindow(lines, today);
    post := Post(id, title, date, readTime, tags, CleanContent(lines));
  }

  /** The metadata loop: over the window, each line's setting overwrites the value it names. */
  method ScanWindow(lines: seq<string>, today: string) returns (date: string, readTime: string, tags: seq<string>)
    ensures Metadata(date, readTime, tags) == ReadMetadata(lines, today)
  {
    date := today;
    readTime := DefaultReadTime;
    tags := [];
    var n := if |lines| < MetadataWindow then |lines| else MetadataWindow;
    for i := 0 to n
      invariant Metadata(date, readTime, tags) == ScanLines(Defaults(today), lines[..i])
    {
      ScanLinesStep(Defaults(today), lines, i);
      var line := Trim(lines[i]);
      if Date.Prefix() <= line {
        date := Capture(line, Date.Label()).GetOr(date);
      } else if ReadTime.Prefix() <= line {
        readTime := Capture(line, ReadTime.Label()).GetOr(readTime);
      } else if Tags.Prefix() <= line {
        var tagMatch := Capture(line, Tags.Label());
        if tagMatch.Some? {
          tags := SplitTags(tagMatch.value);
        }
      }
    }
    assert lines[..n] == Window(lines);
  }
}
