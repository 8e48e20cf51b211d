/**
  The section loader of the documentation site (docs/js/content-loader.js).

  The loader walks a fixed registry of section keys and fragment paths, turns each
  fetch outcome into one labelled `<section>` piece, joins the pieces with a newline in
  registry order and writes the result into the content container. Fetching is not
  modelled: what each fetch came to is an input, given in registry order (which is
  the order `Promise.all` reports results in, whatever order they complete in).
 */
module ContentLoading {
  import opened Wrappers

  /** What fetching one section's fragment came to. */
  datatype Fetched =
    | Body(text: string)   // response.ok held and the body was read as text
    | NotOk                // response.ok was false (status outside 200-299)
    | Threw                // fetch or response.text() rejected

  /** A registry entry: section key and fragment path. */
  type Entry = (string, string)

  /** The registry built by the constructor, in insertion order. */
  const REGISTRY: seq<Entry> := [
    ("features", "sections/features.html"),
    ("techStack", "sections/tech-stack.html"),
    ("installation", "sections/installation.html"),
    ("projectStructure", "sections/project-structure.html"),
    ("apiIntegration", "sections/api-integration.html"),
    ("databaseSchema", "sections/database-schema.html"),
    ("uiuxDesign", "sections/uiux-design.html")
  ]

  /** Body of the placeholder that stands in for a section that failed to load. */
  const SECTION_ERROR_BODY: string := "<p>Error loading section content.</p>"

  /** What the container shows when assembling the page failed as a whole. */
  const PAGE_ERROR_MESSAGE: string := "<p>Error loading content. Please try again later.</p>"

  const CLOSE_TAG: string := "</section>"

  function OpenTag(key: string): string {
    "<section id=\"" + key + "\">"
  }

  /** A section element labelled with `key` around `content`. */
  function Wrap(key: string, content: string): string {
    OpenTag(key) + content + CLOSE_TAG
  }

  /** Reads back the content of a section labelled `key`; None when `s` is not one. */
  function Unwrap(key: string, s: string): Option<string> {
    var open := OpenTag(key);
    if |open| + |CLOSE_TAG| <= |s| && s[..|open|] == open && s[|s| - |CLOSE_TAG|..] == CLOSE_TAG
    then Some(s[|open|..|s| - |CLOSE_TAG|])
    else None
  }

  lemma UnwrapWrap(key: string, content: string)
    ensures Unwrap(key, Wrap(key, content)) == Some(content)
  {
    var open := OpenTag(key);
    var s := Wrap(key, content);
    assert s == open + content + CLOSE_TAG;
    assert s[..|open|] == open;
    assert s[|s| - |CLOSE_TAG|..] == CLOSE_TAG;
    assert s[|open|..|s| - |CLOSE_TAG|] == content;
  }

  lemma WrapUnwrap(key: string, s: string)
    ensures Unwrap(key, s).Some? ==> Wrap(key, Unwrap(key, s).value) == s
  {
    var open := OpenTag(key);
    if Unwrap(key, s).Some? {
      var mid := s[|open|..|s| - |CLOSE_TAG|];
      assert s == s[..|open|] + mid + s[|s| - |CLOSE_TAG|..];
    }
  }

  /** The piece one registry entry contributes: its fragment, or the placeholder. */
  function Piece(key: string, f: Fetched): string {
    match f
    case Body(text) => Wrap(key, text)
    case NotOk => Wrap(key, SECTION_ERROR_BODY)
    case Threw => Wrap(key, SECTION_ERROR_BODY)
  }

  /**
    Every piece is a section labelled with its key; it holds the fetched body unchanged
    on success and the fixed placeholder on either kind of failure.
   */
  lemma PieceContent(key: string, f: Fetched)
    ensures Unwrap(key, Piece(key, f)) == Some(if f.Body? then f.text else SECTION_ERROR_BODY)
    ensures !f.Body? ==> Piece(key, f) == "<section id=\"" + key + "\">" + "<p>Error loading section content.</p>" + "</section>"
  {
    UnwrapWrap(key, if f.Body? then f.text else SECTION_ERROR_BODY);
  }

  /** The pieces of all entries, in registry order. */
  function Pieces(entries: seq<Entry>, fetched: seq<Fetched>): (r: seq<string>)
    requires |fetched| == |entries|
    ensures |r| == |entries|
    ensures forall i :: 0 <= i < |entries| ==> r[i] == Piece(entries[i].0, fetched[i])
  {
    if entries == [] then []
    else [Piece(entries[0].0, fetched[0])] + Pieces(entries[1..], fetched[1..])
  }

  /** Where the `i`-th piece starts once the pieces are joined with one separator each. */
  function Offset(ps: seq<string>, i: nat): nat
    requires i <= |ps|
  {
    if i == 0 then 0 else |ps[0]| + 1 + Offset(ps[1..], i - 1)
  }

  /** Array.prototype.join with a newline separator. */
  function Join(ps: seq<string>): (r: string)
    ensures |ps| > 0 ==> |r| + 1 == Offset(ps, |ps|)
    ensures |ps| == 0 ==> r == ""
  {
    if |ps| == 0 then ""
    else if |ps| == 1 then ps[0]
    else ps[0] + "\n" + Join(ps[1..])
  }

  /**
    The joined string holds every piece, unchanged, at its offset, and a single newline
    right after every piece but the last. JoinDetermined shows that these facts and the
    length in Join's contract determine the joined string completely.
   */
  lemma {:induction false} JoinAt(ps: seq<string>, i: nat)
    requires i < |ps|
    ensures Offset(ps, i) + |ps[i]| <= |Join(ps)|
    ensures Join(ps)[Offset(ps, i)..Offset(ps, i) + |ps[i]|] == ps[i]
    ensures i + 1 < |ps| ==> Offset(ps, i) + |ps[i]| < |Join(ps)| && Join(ps)[Offset(ps, i) + |ps[i]|] == '\n'
  {
    if |ps| == 1 {
    } else {
      var rest := Join(ps[1..]);
      assert Join(ps) == ps[0] + "\n" + rest;
      if i == 0 {
        assert Join(ps)[..|ps[0]|] == ps[0];
      } else {
        JoinAt(ps[1..], i - 1);
        var k := Offset(ps[1..], i - 1);
        assert Offset(ps, i) == |ps[0]| + 1 + k;
        assert ps[1..][i - 1] == ps[i];
        assert Join(ps)[Offset(ps, i)..Offset(ps, i) + |ps[i]|] == rest[k..k + |ps[i]|];
      }
    }
  }

  lemma SliceOfSuffix(s: string, d: nat, a: nat, b: nat)
    requires a <= b && d + b <= |s|
    ensures s[d..][a..b] == s[d + a..d + b]
  {
  }

  /** The string has the pieces of `ps` at their offsets. */
  ghost predicate PiecesAt(ps: seq<string>, s: string) {
    forall i :: 0 <= i < |ps| ==>
      Offset(ps, i) + |ps[i]| <= |s| && s[Offset(ps, i)..Offset(ps, i) + |ps[i]|] == ps[i]
  }

  /** The string has a newline after every piece of `ps` but the last. */
  ghost predicate SeparatorsAt(ps: seq<string>, s: string) {
    forall i :: 0 <= i < |ps| - 1 ==> Offset(ps, i) + |ps[i]| < |s| && s[Offset(ps, i) + |ps[i]|] == '\n'
  }

  lemma PiecesAtTail(ps: seq<string>, s: string)
    requires |ps| > 1 && |ps[0]| < |s| && PiecesAt(ps, s)
    ensures PiecesAt(ps[1..], s[|ps[0]| + 1..])
  {
    var h, t, tail := |ps[0]|, s[|ps[0]| + 1..], ps[1..];
    forall i | 0 <= i < |tail|
      ensures Offset(tail, i) + |tail[i]| <= |t| && t[Offset(tail, i)..Offset(tail, i) + |tail[i]|] == tail[i]
    {
      var o := Offset(tail, i);
      assert Offset(ps, i + 1) == h + 1 + o;
      assert tail[i] == ps[i + 1];
      SliceOfSuffix(s, h + 1, o, o + |tail[i]|);
    }
  }

  lemma SeparatorsAtTail(ps: seq<string>, s: string)
    requires |ps| > 1 && |ps[0]| < |s| && SeparatorsAt(ps, s)
    ensures SeparatorsAt(ps[1..], s[|ps[0]| + 1..])
  {
    var h, t, tail := |ps[0]|, s[|ps[0]| + 1..], ps[1..];
    forall i | 0 <= i < |tail| - 1
      ensures Offset(tail, i) + |tail[i]| < |t| && t[Offset(tail, i) + |tail[i]|] == '\n'
    {
      assert Offset(ps, i + 1) == h + 1 + Offset(tail, i);
      assert tail[i] == ps[i + 1];
    }
  }

  /** Any string with Join's length, pieces and separators is the joined string. */
  lemma {:induction false} JoinDetermined(ps: seq<string>, s: string)
    requires |ps| > 0 && |s| + 1 == Offset(ps, |ps|)
    requires PiecesAt(ps, s) && SeparatorsAt(ps, s)
    ensures s == Join(ps)
  {
    var h := |ps[0]|;
    assert Offset(ps, 0) == 0;
    assert s[..h] == ps[0];
    if |ps| == 1 {
      assert s == s[..h];
    } else {
      assert s[h] == '\n';
      var t := s[h + 1..];
      PiecesAtTail(ps, s);
      SeparatorsAtTail(ps, s);
      assert |t| + 1 == Offset(ps[1..], |ps| - 1);
      JoinDetermined(ps[1..], t);
      assert s == s[..h] + "\n" + t;
    }
  }

  /** How many times `c` occurs in `s`. */
  function Count(s: string, c: char): nat {
    if s == [] then 0 else (if s[0] == c then 1 else 0) + Count(s[1..], c)
  }

  lemma {:induction false} CountConcat(a: string, b: string, c: char)
    ensures Count(a + b, c) == Count(a, c) + Count(b, c)
  {
    if a == [] {
      assert a + b == b;
    } else {
      assert (a + b)[0] == a[0];
      assert (a + b)[1..] == a[1..] + b;
      CountConcat(a[1..], b, c);
    }
  }

  /** How many times `c` occurs in the pieces, all together. */
  function CountAll(ps: seq<string>, c: char): nat {
    if ps == [] then 0 else Count(ps[0], c) + CountAll(ps[1..], c)
  }

  /** Joining n pieces adds exactly n - 1 newlines to the ones the pieces hold. */
  lemma {:induction false} JoinSeparators(ps: seq<string>)
    requires |ps| > 0
    ensures Count(Join(ps), '\n') == CountAll(ps, '\n') + |ps| - 1
  {
    if |ps| > 1 {
      JoinSeparators(ps[1..]);
      CountConcat(ps[0], "\n", '\n');
      CountConcat(ps[0] + "\n", Join(ps[1..]), '\n');
      assert Count("\n", '\n') == 1;
    } else {
      assert CountAll(ps[1..], '\n') == 0;
    }
  }

  /** loadAllSections: one piece per entry, in registry order, joined with newlines. */
  function Assemble(entries: seq<Entry>, fetched: seq<Fetched>): string
    requires |fetched| == |entries|
  {
    Join(Pieces(entries, fetched))
  }

  /** The assembled page holds, at its place, the piece of entry `i`, whatever the others did. */
  lemma SectionAt(entries: seq<Entry>, fetched: seq<Fetched>, i: nat)
    requires |fetched| == |entries| && i < |entries|
    ensures var ps := Pieces(entries, fetched);
      && Offset(ps, i) + |ps[i]| <= |Assemble(entries, fetched)|
      && Assemble(entries, fetched)[Offset(ps, i)..Offset(ps, i) + |ps[i]|]
         == Piece(entries[i].0, fetched[i])
  {
    var ps := Pieces(entries, fetched);
    JoinAt(ps, i);
    assert ps[i] == Piece(entries[i].0, fetched[i]);
  }

  lemma {:induction false} JoinEnds(ps: seq<string>)
    requires |ps| > 0 && forall i :: 0 <= i < |ps| ==> |ps[i]| > 0
    ensures var s := Join(ps);
      |s| > 0 && s[0] == ps[0][0] && s[|s| - 1] == ps[|ps| - 1][|ps[|ps| - 1]| - 1]
  {
    if |ps| > 1 {
      JoinEnds(ps[1..]);
      assert Join(ps) == ps[0] + "\n" + Join(ps[1..]);
    }
  }

  lemma WrapEnds(key: string, content: string)
    ensures var s := Wrap(key, content); |s| > 0 && s[0] == '<' && s[|s| - 1] == '>'
  {
  }

  /** With at least one entry the page starts with a section tag and ends with one: no stray newline. */
  lemma AssembleEnds(entries: seq<Entry>, fetched: seq<Fetched>)
    requires |fetched| == |entries| > 0
    ensures var s := Assemble(entries, fetched);
      |s| > 0 && s[0] == '<' && s[|s| - 1] == '>'
  {
    var ps := Pieces(entries, fetched);
    var n := |ps|;
    WrapEnds(entries[0].0, if fetched[0].Body? then fetched[0].text else SECTION_ERROR_BODY);
    WrapEnds(entries[n - 1].0, if fetched[n - 1].Body? then fetched[n - 1].text else SECTION_ERROR_BODY);
    JoinEnds(ps);
  }

  /**
    Failure isolation: changing what one entry's fetch came to changes that entry's
    piece and no other.
   */
  lemma PiecesIsolation(entries: seq<Entry>, fetched: seq<Fetched>, i: nat, f: Fetched)
    requires |fetched| == |entries| && i < |entries|
    ensures Pieces(entries, fetched[i := f]) == Pieces(entries, fetched)[i := Piece(entries[i].0, f)]
  {
  }

  /** The registry has seven distinct keys, each mapped to its fragment under sections/. */
  lemma RegistryShape()
    ensures |REGISTRY| == 7
    ensures forall i, j :: 0 <= i < j < |REGISTRY| ==> REGISTRY[i].0 != REGISTRY[j].0
    ensures forall i :: 0 <= i < |REGISTRY| ==>
      |REGISTRY[i].1| > 14 && REGISTRY[i].1[..9] == "sections/" && REGISTRY[i].1[|REGISTRY[i].1| - 5..] == ".html"
  {
  }

  /** Two entries that both load: their sections, newline-separated. */
  lemma TwoSectionsLoaded()
    ensures Assemble([("features", "a.html"), ("techStack", "b.html")], [Body("<p>A</p>"), Body("<p>B</p>")])
      == "<section id=\"features\"><p>A</p></section>" + "\n" + "<section id=\"techStack\"><p>B</p></section>"
  {
    var ps := Pieces([("features", "a.html"), ("techStack", "b.html")], [Body("<p>A</p>"), Body("<p>B</p>")]);
    assert ps == [Wrap("features", "<p>A</p>"), Wrap("techStack", "<p>B</p>")];
    assert Join(ps) == ps[0] + "\n" + ps[1];
    assert ps[0] == "<section id=\"features\"><p>A</p></section>";
  }

  /** The second entry answers 404: its placeholder, and the first section as it was. */
  lemma SecondSectionMissing()
    ensures Assemble([("features", "a.html"), ("techStack", "b.html")], [Body("<p>A</p>"), NotOk])
      == "<section id=\"features\"><p>A</p></section>" + "\n"
         + "<section id=\"techStack\">" + "<p>Error loading section content.</p>" + "</section>"
  {
    var ps := Pieces([("features", "a.html"), ("techStack", "b.html")], [Body("<p>A</p>"), NotOk]);
    assert ps == [Wrap("features", "<p>A</p>"), Wrap("techStack", SECTION_ERROR_BODY)];
    assert Join(ps) == ps[0] + "\n" + ps[1];
    assert ps[0] == "<section id=\"features\"><p>A</p></section>";
    assert ps[1] == "<section id=\"techStack\">" + "<p>Error loading section content.</p>" + "</section>";
  }

  /** Whether `window.Prism` exists, and whether its highlightAll throws. */
  datatype Highlighter = Absent | Present | Throws

  /** The loader object: its registry and the container it writes. */
  class ContentLoader {
    const sections: seq<Entry>
    var container: string       // innerHTML of the content container
    var writes: nat             // assignments made to the container
    var highlightCalls: nat     // calls of Prism.highlightAll

    constructor (html: string)
      ensures sections == REGISTRY
      ensures container == html && writes == 0 && highlightCalls == 0
    {
      sections := REGISTRY;
      container := html;
      writes := 0;
      highlightCalls := 0;
    }

    /** initializeCodeBlocks: runs the highlighter when there is one; reports whether it threw. */
    method InitializeCodeBlocks(prism: Highlighter) returns (threw: bool)
      modifies this`highlightCalls
      ensures threw == (prism == Throws)
      ensures highlightCalls == old(highlightCalls) + (if prism == Absent then 0 else 1)
    {
      threw := false;
      if prism != Absent {
        highlightCalls := highlightCalls + 1;
        threw := prism == Throws;
      }
    }

    /**
      loadContent. `gathered` is what loadAllSections resolved to (None: it rejected).
      On success the container gets the assembled page; on rejection, or when the
      highlighter throws after the page was written, the catch block writes the
      generic error message.
     */
    method LoadContent(gathered: Option<seq<Fetched>>, prism: Highlighter)
      requires gathered.Some? ==> |gathered.value| == |sections|
      modifies this`container, this`writes, this`highlightCalls
      ensures container ==
        if gathered.Some? && prism != Throws then Assemble(sections, gathered.value) else PAGE_ERROR_MESSAGE
      ensures writes == old(writes) + (if gathered.Some? && prism == Throws then 2 else 1)
      ensures highlightCalls == old(highlightCalls) + (if gathered.Some? && prism != Absent then 1 else 0)
    {
      var failed := true;
      if gathered.Some? {
        container := Assemble(sections, gathered.value);
        writes := writes + 1;
        failed := InitializeCodeBlocks(prism);
      }
      if failed {
        container := PAGE_ERROR_MESSAGE;
        writes := writes + 1;
      }
    }
  }
}
