/**
 * The translation resolver (`Globalization`): a path, given as one string
 * with `/` or `\` separators or as an array of segments, is looked up under
 * the locale in a nested dictionary; a missing or empty entry falls back to
 * the segments joined with `/`. The chosen template goes to the message
 * formatter, which is a parameter here.
 */
module Globalization {
  import opened Wrappers

  /** A dictionary value: a template string or a nested object. */
  datatype Dict = Leaf(text: string) | Node(children: map<string, Dict>)

  /** `TranslationPath`: `string | string[]`. */
  datatype Path = PathString(s: string) | PathArray(segments: seq<string>)

  /** What the formatter yields: one string, or parts already converted to strings. */
  datatype Formatted = Text(s: string) | Parts(parts: seq<string>)

  /** What JavaScript prints for a plain object in a template literal. */
  const ObjectText: string := "[object Object]"

  predicate IsSeparator(c: char)
  {
    c == '/' || c == '\\'
  }

  predicate NoSeparator(w: string)
  {
    forall k :: 0 <= k < |w| ==> !IsSeparator(w[k])
  }

  /** `s.split(/[\/\\]/gi)`: the pieces between separators, empty ones included. */
  function Split(s: string): (parts: seq<string>)
    ensures |parts| >= 1
    ensures forall i :: 0 <= i < |parts| ==> NoSeparator(parts[i])
    decreases |s|
  {
    if s == [] then [""]
    else
      var rest := Split(s[1..]);
      if IsSeparator(s[0]) then [""] + rest
      else [[s[0]] + rest[0]] + rest[1..]
  }

  /** `.filter(v => !!v)`: drop the empty segments. */
  function NonEmpty(segments: seq<string>): (r: seq<string>)
    ensures forall i :: 0 <= i < |r| ==> r[i] != ""
    ensures forall w :: w in r <==> w in segments && w != ""
  {
    if segments == [] then []
    else if segments[0] == "" then NonEmpty(segments[1..])
    else [segments[0]] + NonEmpty(segments[1..])
  }

  /** `.join('/')`. */
  function Join(segments: seq<string>): string
  {
    if segments == [] then ""
    else if |segments| == 1 then segments[0]
    else segments[0] + "/" + Join(segments[1..])
  }

  /** The segments `translate` walks: split a string path, then drop empty segments. */
  function Segments(path: Path): (segments: seq<string>)
    ensures forall i :: 0 <= i < |segments| ==> segments[i] != ""
    ensures path.PathString? ==> forall i :: 0 <= i < |segments| ==> NoSeparator(segments[i])
  {
    match path
    case PathString(s) =>
      var r := NonEmpty(Split(s));
      assert forall i :: 0 <= i < |r| ==> r[i] in Split(s);
      r
    case PathArray(a) => NonEmpty(a)
  }

  /** The fallback template: the walked segments joined with `/`. */
  function Fallback(path: Path): string
  {
    Join(Segments(path))
  }

  /** `s` with every backslash turned into a slash. */
  function Slashed(s: string): (r: string)
    ensures |r| == |s|
    ensures forall k :: 0 <= k < |s| ==> r[k] == if IsSeparator(s[k]) then '/' else s[k]
  {
    seq(|s|, k requires 0 <= k < |s| => if IsSeparator(s[k]) then '/' else s[k])
  }

  /** Splitting and rejoining with `/` only normalises the separators. */
  lemma {:induction false} JoinSplit(s: string)
    ensures Join(Split(s)) == Slashed(s)
    decreases |s|
  {
    if s != [] {
      JoinSplit(s[1..]);
      var rest := Split(s[1..]);
      if IsSeparator(s[0]) {
        assert ([""] + rest)[1..] == rest;
      } else {
        var parts := [[s[0]] + rest[0]] + rest[1..];
        if |rest| > 1 {
          assert parts[1..] == rest[1..];
        }
      }
      assert Slashed(s) == Slashed(s[..1]) + Slashed(s[1..]);
    }
  }

  /** A separator-free word splits to itself. */
  lemma {:induction false} SplitWord(w: string)
    requires NoSeparator(w)
    ensures Split(w) == [w]
    decreases |w|
  {
    if w != [] {
      SplitWord(w[1..]);
      assert [w[0]] + w[1..] == w;
    }
  }

  /** A separator-free word followed by a separator splits off as one piece. */
  lemma {:induction false} SplitWordSlash(w: string, sep: char, rest: string)
    requires NoSeparator(w) && IsSeparator(sep)
    ensures Split(w + [sep] + rest) == [w] + Split(rest)
    decreases |w|
  {
    var s := w + [sep] + rest;
    if w == [] {
      assert s == [sep] + rest && s[1..] == rest;
    } else {
      assert s[1..] == w[1..] + [sep] + rest;
      SplitWordSlash(w[1..], sep, rest);
      assert [w[0]] + w[1..] == w;
    }
  }

  /** Joining separator-free segments and splitting again gives the segments back. */
  lemma {:induction false} SplitJoin(segments: seq<string>)
    requires |segments| >= 1
    requires forall i :: 0 <= i < |segments| ==> NoSeparator(segments[i])
    ensures Split(Join(segments)) == segments
    decreases |segments|
  {
    if |segments| == 1 {
      SplitWord(segments[0]);
    } else {
      SplitJoin(segments[1..]);
      SplitWordSlash(segments[0], '/', Join(segments[1..]));
    }
  }

  /** Filtering distributes over concatenation: order and repeated segments are kept. */
  lemma {:induction false} NonEmptyAppend(a: seq<string>, b: seq<string>)
    ensures NonEmpty(a + b) == NonEmpty(a) + NonEmpty(b)
  {
    if a == [] {
      assert a + b == b;
    } else {
      assert (a + b)[1..] == a[1..] + b;
      NonEmptyAppend(a[1..], b);
    }
  }

  /** Filtering segments that are all non-empty keeps them all. */
  lemma {:induction false} NonEmptyKeeps(segments: seq<string>)
    requires forall i :: 0 <= i < |segments| ==> segments[i] != ""
    ensures NonEmpty(segments) == segments
  {
    if segments != [] {
      NonEmptyKeeps(segments[1..]);
    }
  }

  /**
   * The fallback, used itself as a string path, walks the same segments:
   * always for string paths, and for array paths whose segments hold no separator.
   */
  lemma FallbackReparses(path: Path)
    requires path.PathArray? ==> forall i :: 0 <= i < |path.segments| ==> NoSeparator(path.segments[i])
    ensures Segments(PathString(Fallback(path))) == Segments(path)
  {
    var segs := Segments(path);
    if segs == [] {
      assert Split("") == [""];
    } else {
      if path.PathArray? {
        forall i | 0 <= i < |segs| ensures NoSeparator(segs[i]) {
          assert segs[i] in path.segments;
        }
      }
      SplitJoin(segs);
      NonEmptyKeeps(segs);
    }
  }

  /** `"a\\b"`, `"a//b"` and `["a","b"]` walk the same segments and share the fallback `"a/b"`. */
  lemma SameFallbackExamples()
    ensures Segments(PathString("a\\b")) == Segments(PathString("a//b")) == Segments(PathArray(["a", "b"])) == ["a", "b"]
    ensures Fallback(PathString("a\\b")) == "a/b"
  {
    SplitWord("a");
    SplitWord("b");
    SplitWordSlash("a", '\\', "b");
    assert "a\\b" == "a" + ['\\'] + "b";
    SplitWordSlash("", '/', "b");
    assert "/b" == "" + ['/'] + "b";
    SplitWordSlash("a", '/', "/b");
    assert "a//b" == "a" + ['/'] + "/b";
    assert NonEmpty(["b"]) == ["b"];
    assert NonEmpty(["", "b"]) == ["b"];
  }

  /** One step of the walk, `dict[segment]`; indexing into a string leaf yields nothing. */
  function Child(d: Dict, segment: string): (r: Option<Dict>)
    ensures r.Some? <==> d.Node? && segment in d.children
    ensures r.Some? ==> r.value == d.children[segment]
  {
    match d
    case Node(m) => if segment in m then Some(m[segment]) else None
    case Leaf(_) => None
  }

  /** JavaScript truthiness of a walked value: missing and `""` are falsy. */
  predicate Truthy(v: Option<Dict>)
  {
    v.Some? && v.value != Leaf("")
  }

  /** The reference lookup: follow every segment from `d`; absent as soon as one is missing. */
  function Resolve(d: Dict, segments: seq<string>): Option<Dict>
    decreases |segments|
  {
    if segments == [] then Some(d)
    else
      match Child(d, segments[0])
      case None => None
      case Some(c) => Resolve(c, segments[1..])
  }

  /** `!dict ? undefined : `${dict}``: the template a walk's end provides. */
  function Found(v: Option<Dict>): (r: Option<string>)
    ensures r.Some? <==> Truthy(v)
    ensures r.Some? ==> r.value != ""
  {
    match v
    case None => None
    case Some(Leaf(s)) => if s == "" then None else Some(s)
    case Some(Node(_)) => Some(ObjectText)
  }

  /** The template `translate` hands to the formatter. */
  function Template(dictionary: Dict, locale: string, path: Path): string
  {
    match Found(Resolve(dictionary, [locale] + Segments(path)))
    case Some(t) => t
    case None => Fallback(path)
  }

  /** The formatter's result as one string: parts concatenated in order. */
  function Render(f: Formatted): string
  {
    match f
    case Text(s) => s
    case Parts(ps) => Concat(ps)
  }

  function Concat(parts: seq<string>): string
  {
    if parts == [] then "" else parts[0] + Concat(parts[1..])
  }

  /** Concatenation keeps the order of the parts. */
  lemma {:induction false} ConcatAppend(a: seq<string>, b: seq<string>)
    ensures Concat(a + b) == Concat(a) + Concat(b)
  {
    if a == [] {
      assert a + b == b;
    } else {
      assert (a + b)[1..] == a[1..] + b;
      ConcatAppend(a[1..], b);
    }
  }

  /** Resolution never partially applies: a found value means every earlier step reached a child. */
  lemma {:induction false} ResolvePrefix(d: Dict, segments: seq<string>, k: nat)
    requires k <= |segments|
    requires Resolve(d, segments).Some?
    ensures Resolve(d, segments[..k]).Some?
    ensures Resolve(d, segments) == Resolve(Resolve(d, segments[..k]).value, segments[k..])
    decreases k
  {
    if k > 0 {
      var c := Child(d, segments[0]).value;
      ResolvePrefix(c, segments[1..], k - 1);
      assert segments[..k][1..] == segments[1..][..k - 1];
      assert segments[1..][k - 1..] == segments[k..];
    }
  }

  /** A step that finds no child makes the whole lookup absent, whatever follows. */
  lemma {:induction false} ResolveStuck(d: Dict, segments: seq<string>, k: nat)
    requires k < |segments|
    requires Resolve(d, segments[..k]).Some?
    requires Child(Resolve(d, segments[..k]).value, segments[k]).None?
    ensures Resolve(d, segments) == None
    decreases k
  {
    if k > 0 {
      assert segments[..k][0] == segments[0];
      assert segments[..k][1..] == segments[1..][..k - 1];
      var c := Child(d, segments[0]).value;
      ResolveStuck(c, segments[1..], k - 1);
    }
  }

  /** A missing key at any step makes the whole path fall back. */
  lemma MissingStepFallsBack(dictionary: Dict, locale: string, path: Path, k: nat)
    requires k < |[locale] + Segments(path)|
    requires Resolve(dictionary, ([locale] + Segments(path))[..k]).Some?
    requires Child(Resolve(dictionary, ([locale] + Segments(path))[..k]).value, ([locale] + Segments(path))[k]).None?
    ensures Template(dictionary, locale, path) == Fallback(path)
  {
    ResolveStuck(dictionary, [locale] + Segments(path), k);
  }

  /** An entry found with a non-empty string is the template; the fallback is not used. */
  lemma FoundTemplateWins(dictionary: Dict, locale: string, path: Path, s: string)
    requires Resolve(dictionary, [locale] + Segments(path)) == Some(Leaf(s))
    requires s != ""
    ensures Template(dictionary, locale, path) == s
  {
  }

  /** An entry that is the empty string counts as missing. */
  lemma EmptyTemplateFallsBack(dictionary: Dict, locale: string, path: Path)
    requires Resolve(dictionary, [locale] + Segments(path)) == Some(Leaf(""))
    ensures Template(dictionary, locale, path) == Fallback(path)
  {
  }

  /** Variant selection is positional: `[a, b]` reads `locale.a.b`. */
  lemma VariantSelection(dictionary: Dict, locale: string, a: string, b: string)
    requires a != "" && b != ""
    ensures Resolve(dictionary, [locale] + Segments(PathArray([a, b]))) == Resolve(dictionary, [locale, a, b])
  {
    assert NonEmpty([b]) == [b];
    assert NonEmpty([a, b]) == [a, b];
  }

  /** `Globalization`: a dictionary and a locale, both set only by the constructor. */
  class Translator {
    const dictionary: Dict
    var locale: string

    constructor (locale: string, dictionary: Dict)
      ensures this.locale == locale && this.dictionary == dictionary
    {
      this.dictionary := dictionary;
      this.locale := locale;
    }

    /** `findTranslation`: walk `[locale, ...segments]`, stopping at the first falsy value. */
    method FindTranslation(segments: seq<string>) returns (r: Option<string>)
      ensures r == Found(Resolve(dictionary, [locale] + segments))
      ensures r.Some? ==> r.value != ""
    {
      var path := [locale] + segments;
      var dict: Option<Dict> := Some(dictionary);
      for i := 0 to |path|
        invariant Truthy(dict) ==> Resolve(dictionary, path) == Resolve(dict.value, path[i..])
        invariant !Truthy(dict) ==> Found(Resolve(dictionary, path)) == None
      {
        if !Truthy(dict) {
          break;
        }
        assert path[i..][1..] == path[i + 1..];
        dict := Child(dict.value, path[i]);
      }
      r := Found(dict);
    }

    /** `translate`: resolve the path, fall back to its literal form, format, concatenate. */
    method Translate<A>(path: Path, args: A, format: (string, string, A) -> Formatted) returns (text: string)
      ensures text == Render(format(Template(dictionary, locale, path), locale, args))
    {
      var segments := Segments(path);
      var fallback := Join(segments);
      var translation := FindTranslation(segments);
      var template := if translation.Some? then translation.value else fallback;
      var result := format(template, locale, args);
      text := match result
        case Text(s) => s
        case Parts(ps) => Concat(ps);
    }
  }
}
