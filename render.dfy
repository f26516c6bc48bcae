/**
 * The rules the post page applies around the markdown renderer
 * (src/components/BlogPost.tsx): image paths, external links, the language
 * label and the copied text of a code block, and which `code` elements are
 * styled inline.
 */
module Render {
  import opened Wrappers
  import opened JsString

  // ---------------------------------------------------------------- images

  /**
   * `fixImagePath`: a path under `public/` is served from the root, a rooted
   * path is kept, and any other path is made rooted. The result is rooted and,
   * after its leading `/`, a tail of the given path.
   */
  function FixImagePath(src: string): (r: string)
    ensures "/" <= r && |r| <= |src| + 1
    ensures r[1..] == src[|src| - |r[1..]|..]
  {
    if "public/" <= src then "/" + src[7..]
    else if "/" <= src then src
    else "/" + src
  }

  /** Fixing a fixed path changes nothing. */
  lemma FixImagePathIdempotent(src: string)
    ensures FixImagePath(FixImagePath(src)) == FixImagePath(src)
  {
    var r := FixImagePath(src);
    assert r[0] == '/';
    assert !("public/" <= r) by {
      assert |r| >= 7 ==> r[0] != "public/"[0];
    }
  }

  /** A path is left as it is exactly when it is already rooted. */
  lemma FixImagePathFixed(src: string)
    ensures FixImagePath(src) == src <==> "/" <= src
  {
    if "public/" <= src {
      assert src[0] == 'p';
      assert |"/" + src[7..]| < |src|;
    } else if !("/" <= src) {
      assert |"/" + src| > |src|;
    }
  }

  /** `public/x` is served as `/x`. */
  lemma PublicPathServedFromRoot(x: string)
    ensures FixImagePath("public/" + x) == "/" + x
  {
    assert ("public/" + x)[7..] == x;
  }

  /** A path neither under `public/` nor rooted is made rooted: `rel/b.png` is served as `/rel/b.png`. */
  lemma RelativePathMadeRooted(src: string)
    requires !("public/" <= src) && !("/" <= src)
    ensures FixImagePath(src) == "/" + src
    ensures FixImagePath("rel/b.png") == "/rel/b.png"
  {
    var example := "rel/b.png";
    assert example[0] == 'r';
    assert !("public/" <= example) && !("/" <= example);
  }

  /** The `src` given to an image: the fixed path, or the empty string when there is no non-empty path. */
  function ImageSource(src: Option<string>): (r: string)
    ensures r == "" <==> src.None? || src.value == ""
    ensures r != "" ==> "/" <= r && r == FixImagePath(src.value)
  {
    if src.Some? && src.value != "" then FixImagePath(src.value) else ""
  }

  // ---------------------------------------------------------------- links

  /** The `target` and `rel` attributes of a rendered link. */
  datatype LinkAttributes = LinkAttributes(target: Option<string>, rel: Option<string>)

  /** A link opens in a new tab when its `href` starts with `http`. */
  predicate IsExternal(href: Option<string>) {
    href.Some? && "http" <= href.value
  }

  /**
   * The two attributes are set together: both exactly for external links,
   * `_blank` with `noopener noreferrer`, and neither otherwise.
   */
  function Link(href: Option<string>): (a: LinkAttributes)
    ensures a.target.Some? <==> IsExternal(href)
    ensures a.rel.Some? <==> a.target.Some?
    ensures a.target.Some? ==> a.target.value == "_blank" && a.rel.value == "noopener noreferrer"
  {
    LinkAttributes(
      if href.Some? && "http" <= href.value then Some("_blank") else None,
      if href.Some? && "http" <= href.value then Some("noopener noreferrer") else None)
  }

  /** Rooted, fragment and `mailto:` links stay in the same tab; `https://` links open a new one. */
  lemma LinkExamples(rest: string)
    ensures Link(Some("https://" + rest)).target == Some("_blank")
    ensures Link(Some("/" + rest)).target == None
    ensures Link(Some("#" + rest)).target == None
    ensures Link(Some("mailto:" + rest)).target == None
    ensures Link(None).target == None
  {
    assert ("https://" + rest)[..4] == "http";
    assert ("/" + rest)[0] == '/';
    assert ("#" + rest)[0] == '#';
    assert ("mailto:" + rest)[0] == 'm';
  }

  // ---------------------------------------------------------------- code languages

  /** A character of `\w`. */
  predicate IsWordChar(c: char) {
    ('a' <= c <= 'z') || ('A' <= c <= 'Z') || ('0' <= c <= '9') || c == '_'
  }

  /** The length of the run of word characters starting at `i`: what the greedy `(\w+)` takes. */
  function WordRun(s: string, i: nat): (n: nat)
    requires i <= |s|
    ensures i + n <= |s|
    decreases |s| - i
  {
    if i < |s| && IsWordChar(s[i]) then 1 + WordRun(s, i + 1) else 0
  }

  /** The run holds only word characters and stops at the end of `s` or at a non-word character. */
  lemma {:induction false} WordRunMaximal(s: string, i: nat)
    requires i <= |s|
    ensures forall k :: i <= k < i + WordRun(s, i) ==> IsWordChar(s[k])
    ensures i + WordRun(s, i) == |s| || !IsWordChar(s[i + WordRun(s, i)])
    decreases |s| - i
  {
    if i < |s| && IsWordChar(s[i]) {
      WordRunMaximal(s, i + 1);
    }
  }

  const LanguagePrefix: string := "language-"

  /** `/language-(\w+)/` matches at `p`. */
  predicate LanguageAt(s: string, p: nat) {
    p + |LanguagePrefix| < |s| && s[p..p + |LanguagePrefix|] == LanguagePrefix && IsWordChar(s[p + |LanguagePrefix|])
  }

  /** The leftmost match at or after `p`. */
  function FirstLanguageAt(s: string, p: nat): (r: Option<nat>)
    ensures r.Some? ==> p <= r.value && LanguageAt(s, r.value)
    decreases |s| - p
  {
    if p >= |s| then None
    else if LanguageAt(s, p) then Some(p)
    else FirstLanguageAt(s, p + 1)
  }

  /** The search finds the leftmost match: none starts between `p` and the one it returns, and none at all when it fails. */
  lemma {:induction false} FirstLanguageAtLeftmost(s: string, p: nat)
    ensures forall q :: p <= q && (FirstLanguageAt(s, p).None? || q < FirstLanguageAt(s, p).value) ==> !LanguageAt(s, q)
    decreases |s| - p
  {
    if p < |s| && !LanguageAt(s, p) {
      FirstLanguageAtLeftmost(s, p + 1);
    }
  }

  /** `extractLanguageFromClassName`: the word after the first `language-` that is followed by one, or `""`. */
  function ExtractLanguage(className: string): (lang: string)
    ensures |lang| <= |className|
    ensures forall k :: 0 <= k < |lang| ==> IsWordChar(lang[k])
  {
    if className == "" then ""
    else match FirstLanguageAt(className, 0)
      case Some(p) =>
        var start := p + |LanguagePrefix|;
        WordRunMaximal(className, start);
        WordChars(className, start, start + WordRun(className, start));
        className[start..start + WordRun(className, start)]
      case None => ""
  }

  /** A slice of word characters holds only word characters. */
  lemma WordChars(s: string, i: nat, j: nat)
    requires i <= j <= |s|
    requires forall k :: i <= k < j ==> IsWordChar(s[k])
    ensures forall k :: 0 <= k < j - i ==> IsWordChar(s[i..j][k])
  {
    assert forall k :: 0 <= k < j - i ==> s[i..j][k] == s[i + k];
  }

  /** The language is empty exactly when no `language-` is followed by a word character. */
  lemma ExtractLanguageEmpty(className: string)
    ensures ExtractLanguage(className) == "" <==> forall p :: !LanguageAt(className, p)
  {
    FirstLanguageAtLeftmost(className, 0);
    match FirstLanguageAt(className, 0)
    case Some(p) =>
      var start := p + |LanguagePrefix|;
      assert WordRun(className, start) > 0;
    case None =>
  }

  /**
   * A non-empty language is the whole run of word characters after the
   * leftmost `language-` that is followed by one.
   */
  lemma ExtractLanguageFound(className: string)
    ensures var lang := ExtractLanguage(className);
      lang != "" ==> exists p: nat ::
        && LanguageAt(className, p)
        && (forall q: nat :: q < p ==> !LanguageAt(className, q))
        && var start := p + |LanguagePrefix|;
        && lang == className[start..start + |lang|]
        && (forall k :: 0 <= k < |lang| ==> IsWordChar(lang[k]))
        && (start + |lang| == |className| || !IsWordChar(className[start + |lang|]))
  {
    FirstLanguageAtLeftmost(className, 0);
    if className != "" && FirstLanguageAt(className, 0).Some? {
      var p := FirstLanguageAt(className, 0).value;
      var start := p + |LanguagePrefix|;
      WordRunMaximal(className, start);
      var lang := className[start..start + WordRun(className, start)];
      assert forall k :: 0 <= k < |lang| ==> lang[k] == className[start + k];
    }
  }

  /** The class `language-w` names the language `w`. */
  lemma LanguageClassRoundTrip(w: string)
    requires w != [] && forall k :: 0 <= k < |w| ==> IsWordChar(w[k])
    ensures ExtractLanguage(LanguagePrefix + w) == w
  {
    var s := LanguagePrefix + w;
    assert LanguageAt(s, 0);
    WordRunAll(s, |LanguagePrefix|);
    assert s[|LanguagePrefix|..] == w;
  }

  /** From `i` to the end all characters are word characters: the run is the rest of `s`. */
  lemma {:induction false} WordRunAll(s: string, i: nat)
    requires i <= |s| && forall k :: i <= k < |s| ==> IsWordChar(s[k])
    ensures WordRun(s, i) == |s| - i
    decreases |s| - i
  {
    if i < |s| {
      WordRunAll(s, i + 1);
    }
  }

  /** The display names of the known languages, keyed by lower-case tag. */
  const LanguageNames: map<string, string> := map[
    "js" := "JavaScript", "javascript" := "JavaScript",
    "ts" := "TypeScript", "typescript" := "TypeScript",
    "py" := "Python", "python" := "Python",
    "java" := "Java", "cpp" := "C++", "c" := "C", "cs" := "C#", "php" := "PHP",
    "rb" := "Ruby", "ruby" := "Ruby", "go" := "Go",
    "rs" := "Rust", "rust" := "Rust",
    "sh" := "Shell", "bash" := "Bash", "sql" := "SQL",
    "html" := "HTML", "css" := "CSS", "scss" := "SCSS",
    "json" := "JSON", "xml" := "XML", "yaml" := "YAML", "yml" := "YAML",
    "dockerfile" := "Dockerfile", "md" := "Markdown", "markdown" := "Markdown"
  ]

  lemma LanguageNamesNonEmpty()
    ensures forall k :: k in LanguageNames ==> LanguageNames[k] != ""
  {
  }

  /**
   * `getLanguageDisplayName`, looking the lower-cased tag up among the table's
   * own entries only; an unknown tag is shown upper-cased.
   */
  function DisplayName(lang: string): (name: string)
    ensures name == "" <==> lang == ""
  {
    LanguageNamesNonEmpty();
    assert Lower("") == "";
    var key := Lower(lang);
    if key in LanguageNames then LanguageNames[key] else Upper(lang)
  }

  /**
   * The display name is empty only for the empty tag; tags that differ only in
   * case get the same name; and a tag outside the table is shown upper-cased:
   * the same letters, none of them lower-case.
   */
  lemma DisplayNameMeaning(lang: string, other: string)
    ensures DisplayName(lang) == "" <==> lang == ""
    ensures Lower(lang) == Lower(other) ==> DisplayName(lang) == DisplayName(other)
    ensures Lower(lang) !in LanguageNames ==> Lower(DisplayName(lang)) == Lower(lang)
    ensures Lower(lang) !in LanguageNames ==> |DisplayName(lang)| == |lang| && forall k :: 0 <= k < |lang| ==> !('a' <= DisplayName(lang)[k] <= 'z')
  {
    if Lower(lang) == Lower(other) && Lower(lang) !in LanguageNames {
      assert |lang| == |other|;
      forall k | 0 <= k < |lang| ensures UpperChar(lang[k]) == UpperChar(other[k]) {
        assert LowerChar(lang[k]) == Lower(lang)[k] == Lower(other)[k] == LowerChar(other[k]);
      }
      assert Upper(lang) == Upper(other);
    }
    if Lower(lang) !in LanguageNames {
      forall k | 0 <= k < |lang| ensures Lower(DisplayName(lang))[k] == Lower(lang)[k] {
        assert LowerChar(UpperChar(lang[k])) == LowerChar(lang[k]);
      }
    }
  }

  /** `displayLanguage || 'CODE'`: the text shown above a code block, never empty. */
  function Label(lang: string): (shown: string)
    ensures shown != ""
  {
    var d := DisplayName(lang);
    if d != "" then d else "CODE"
  }

  /** A block without a language is labelled `CODE`; any other gets its display name, and no label is empty. */
  lemma LabelMeaning(lang: string)
    ensures Label(lang) == if lang == "" then "CODE" else DisplayName(lang)
    ensures Label(lang) != ""
  {
    DisplayNameMeaning(lang, lang);
  }

  // ------------------------------------------- the display-name lookup as written

  /** The JavaScript values an object-literal lookup can give here. */
  datatype JsValue = Undefined | Str(text: string) | Func | Obj

  /**
   * What a plain object literal inherits under an all-lower-case key: the
   * `constructor` function and the `__proto__` prototype object.
   */
  function Inherited(key: string): JsValue {
    if key == "constructor" then Func
    else if key == "__proto__" then Obj
    else Undefined
  }

  predicate Truthy(v: JsValue) {
    match v
    case Undefined => false
    case Str(t) => t != ""
    case Func => true
    case Obj => true
  }

  /** `languageMap[lang.toLowerCase()]` on the object literal, inherited members included. */
  function LookupAsWritten(lang: string): JsValue {
    var key := Lower(lang);
    if key in LanguageNames then Str(LanguageNames[key]) else Inherited(key)
  }

  /** `(languageMap[lang.toLowerCase()] || lang.toUpperCase()) || 'CODE'` as the code computes it. */
  function LabelAsWritten(lang: string): JsValue {
    var found := LookupAsWritten(lang);
    var display := if Truthy(found) then found else Str(Upper(lang));
    if Truthy(display) then display else Str("CODE")
  }

  /** The class `language-constructor` names the language `constructor`, and `language-__proto__` names `__proto__`. */
  lemma InheritedNamesAreLanguages()
    ensures ExtractLanguage(LanguagePrefix + "constructor") == "constructor"
    ensures ExtractLanguage(LanguagePrefix + "__proto__") == "__proto__"
  {
    LanguageClassRoundTrip("constructor");
    LanguageClassRoundTrip("__proto__");
  }

  /** The language `constructor` is labelled with the inherited `Object` function. */
  lemma ConstructorLabelAsWritten()
    ensures LabelAsWritten("constructor") == Func
  {
    LowerUnchanged("constructor");
  }

  /** The language `__proto__` is labelled with the prototype object. */
  lemma ProtoLabelAsWritten()
    ensures LabelAsWritten("__proto__") == Obj
  {
    LowerUnchanged("__proto__");
  }

  /** Text without upper-case letters is its own lower case. */
  lemma LowerUnchanged(s: string)
    requires forall k :: 0 <= k < |s| ==> !('A' <= s[k] <= 'Z')
    ensures Lower(s) == s
  {
  }

  /** For every other tag the code as written shows the same text as `Label`. */
  lemma LabelAsWrittenAgrees(lang: string)
    requires Lower(lang) != "constructor" && Lower(lang) != "__proto__"
    ensures LabelAsWritten(lang) == Str(Label(lang))
  {
    LanguageNamesNonEmpty();
    DisplayNameMeaning(lang, lang);
  }

  // ---------------------------------------------------------------- children trees

  /**
   * React children: a string, a JavaScript array of children, an element with
   * a tag, an optional class name and its own children, or anything else
   * (`null`, a number, a boolean).
   */
  datatype Node = Text(text: string) | Items(items: seq<Node>) | Element(tag: string, className: Option<string>, children: Node) | Other

  /** `extractTextFromChildren`. */
  function ExtractText(n: Node): string
    decreases n
  {
    match n
    case Text(t) => t
    case Items(items) => ExtractAll(items)
    case Element(_, _, children) => ExtractText(children)
    case Other => ""
  }

  /** `children.map(extractTextFromChildren).join('')`. */
  function ExtractAll(items: seq<Node>): string
    decreases items
  {
    if items == [] then "" else ExtractText(items[0]) + ExtractAll(items[1..])
  }

  /** The string leaves of a tree, left to right. */
  function Leaves(n: Node): seq<string>
    decreases n
  {
    match n
    case Text(t) => [t]
    case Items(items) => LeavesAll(items)
    case Element(_, _, children) => Leaves(children)
    case Other => []
  }

  function LeavesAll(items: seq<Node>): seq<string>
    decreases items
  {
    if items == [] then [] else Leaves(items[0]) + LeavesAll(items[1..])
  }

  /** The extracted text is the string leaves laid end to end. */
  lemma {:induction false} ExtractTextIsLeaves(n: Node)
    ensures ExtractText(n) == Concat(Leaves(n))
    decreases n
  {
    match n
    case Text(t) =>
      assert Concat([t]) == t + Concat([]);
    case Items(items) =>
      ExtractAllIsLeaves(items);
    case Element(_, _, children) =>
      ExtractTextIsLeaves(children);
    case Other =>
  }

  lemma {:induction false} ExtractAllIsLeaves(items: seq<Node>)
    ensures ExtractAll(items) == Concat(LeavesAll(items))
    decreases items
  {
    if items != [] {
      ExtractTextIsLeaves(items[0]);
      ExtractAllIsLeaves(items[1..]);
      ConcatAppend(Leaves(items[0]), LeavesAll(items[1..]));
    }
  }

  /** `React.Children.toArray(children)`: nested arrays flattened, `null`s and the like dropped. */
  function Flatten(n: Node): seq<Node>
    decreases n
  {
    match n
    case Items(items) => FlattenAll(items)
    case Other => []
    case _ => [n]
  }

  function FlattenAll(items: seq<Node>): seq<Node>
    decreases items
  {
    if items == [] then [] else Flatten(items[0]) + FlattenAll(items[1..])
  }

  /** An element whose type is `code`. */
  predicate IsCodeElement(n: Node) {
    n.Element? && n.tag == "code"
  }

  /** `.find(...)`: the first code element of the list. */
  function FirstCode(items: seq<Node>): (r: Option<nat>)
    ensures r.Some? ==> r.value < |items| && IsCodeElement(items[r.value])
    decreases |items|
  {
    if items == [] then None
    else if IsCodeElement(items[0]) then Some(0)
    else match FirstCode(items[1..])
      case Some(i) => Some(i + 1)
      case None => None
  }

  /** The search returns the first code element, and fails only when there is none. */
  lemma {:induction false} FirstCodeLeftmost(items: seq<Node>)
    ensures FirstCode(items).None? <==> forall i :: 0 <= i < |items| ==> !IsCodeElement(items[i])
    ensures FirstCode(items).Some? ==> forall i :: 0 <= i < FirstCode(items).value ==> !IsCodeElement(items[i])
    decreases |items|
  {
    if items != [] && !IsCodeElement(items[0]) {
      FirstCodeLeftmost(items[1..]);
      assert forall i :: 1 <= i < |items| ==> items[i] == items[1..][i - 1];
    }
  }

  /** A rendered `pre`: left as it is, or a code block with its label and the text its copy button copies. */
  datatype Pre = PlainPre(children: Node) | CodeBlock(languageLabel: string, code: string, body: Node)

  /** The `pre` renderer: a code block built from the first `code` element among the children, if any. */
  function RenderPre(children: Node): (r: Pre)
    ensures r.PlainPre? ==> r.children == children
    ensures r.CodeBlock? ==> r.languageLabel != ""
  {
    var items := Flatten(children);
    match FirstCode(items)
    case None => PlainPre(children)
    case Some(i) =>
      var code := items[i];
      CodeBlock(Label(ExtractLanguage(code.className.GetOr(""))), ExtractText(code.children), code.children)
  }

  /**
   * A `pre` becomes a code block exactly when one of its children is a `code`
   * element; the block then shows a non-empty label and copies the text of the
   * first such element.
   */
  lemma RenderPreMeaning(children: Node)
    ensures RenderPre(children).CodeBlock? <==> exists i :: 0 <= i < |Flatten(children)| && IsCodeElement(Flatten(children)[i])
    ensures RenderPre(children).PlainPre? ==> RenderPre(children).children == children
    ensures RenderPre(children).CodeBlock? ==> RenderPre(children).languageLabel != ""
    ensures RenderPre(children).CodeBlock? ==>
      exists i :: 0 <= i < |Flatten(children)| && IsCodeElement(Flatten(children)[i])
        && (forall j :: 0 <= j < i ==> !IsCodeElement(Flatten(children)[j]))
        && RenderPre(children).code == ExtractText(Flatten(children)[i].children)
  {
    var items := Flatten(children);
    FirstCodeLeftmost(items);
    match FirstCode(items)
    case Some(i) =>
      assert IsCodeElement(Flatten(children)[i]);
      assert exists j :: 0 <= j < |Flatten(children)| && IsCodeElement(Flatten(children)[j]);
      LabelMeaning(ExtractLanguage(items[i].className.GetOr("")));
    case None =>
  }

  /** `!className`: a `code` without a class name is styled inline, and such a `code` names no language. */
  function IsInline(className: Option<string>): (inline: bool)
    ensures inline ==> ExtractLanguage(className.GetOr("")) == ""
  {
    className.None? || className.value == ""
  }

  /** A `code` element with a non-empty class is never styled inline, in particular one whose class names a language. */
  lemma LanguageCodeNotInline(className: string)
    requires className != ""
    ensures !IsInline(Some(className))
  {
  }
}
