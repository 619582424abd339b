/**
 * The blog's content layer (src/data.rs): which entries of the blog directory
 * are posts, how the front matter is cut out of a post's markdown, and how a
 * post is assembled from its front matter and rendered HTML.
 *
 * The file system, the YAML decoder and the markdown renderer are foreign to
 * the model: they are the fields of an `Env`, total functions that answer
 * `None` where the Rust code would meet an error and panic.
 */
module Data {
  import opened Wrappers
  import opened Text

  /** A point in time; posts are compared by the instant their date denotes. */
  type Instant = int

  // ---------------------------------------------------------------- listing

  /** One entry of the `content/blog` directory listing. */
  datatype DirEntry = DirEntry(name: string, isDir: bool)

  /** `get_blog_directories`: the names of the directory entries, in listing order. */
  function BlogDirectories(listing: seq<DirEntry>): (r: seq<string>)
    ensures |r| <= |listing|
    ensures forall k :: 0 <= k < |r| ==> exists i :: 0 <= i < |listing| && listing[i].isDir && listing[i].name == r[k]
  {
    if listing == [] then []
    else if listing[0].isDir then [listing[0].name] + BlogDirectories(listing[1..])
    else BlogDirectories(listing[1..])
  }

  /** The positions of the directory entries in `listing`, in increasing order. */
  ghost function DirectoryPositions(listing: seq<DirEntry>, from: nat): (idx: seq<nat>)
    requires from <= |listing|
    decreases |listing| - from
    ensures forall k :: 0 <= k < |idx| ==> from <= idx[k] < |listing| && listing[idx[k]].isDir
    ensures forall k, l :: 0 <= k < l < |idx| ==> idx[k] < idx[l]
    ensures forall i :: from <= i < |listing| && listing[i].isDir ==> i in idx
  {
    if from == |listing| then []
    else if listing[from].isDir then [from] + DirectoryPositions(listing, from + 1)
    else DirectoryPositions(listing, from + 1)
  }

  /**
   * The result of `BlogDirectories` lists, one for one and in order, the names
   * of exactly the directory entries: its k-th name is the name of the k-th
   * directory entry of the listing.
   */
  lemma {:induction false} BlogDirectoriesExact(listing: seq<DirEntry>, from: nat)
    requires from <= |listing|
    decreases |listing| - from
    ensures |BlogDirectories(listing[from..])| == |DirectoryPositions(listing, from)|
    ensures forall k :: 0 <= k < |DirectoryPositions(listing, from)| ==>
      BlogDirectories(listing[from..])[k] == listing[DirectoryPositions(listing, from)[k]].name
  {
    if from < |listing| {
      var names, positions := BlogDirectories(listing[from..]), DirectoryPositions(listing, from);
      var names', positions' := BlogDirectories(listing[from + 1..]), DirectoryPositions(listing, from + 1);
      assert listing[from..][1..] == listing[from + 1..];
      BlogDirectoriesExact(listing, from + 1);
      if listing[from].isDir {
        assert names == [listing[from].name] + names';
        assert positions == [from] + positions';
        forall k | 0 < k < |positions| ensures names[k] == listing[positions[k]].name {
          assert names[k] == names'[k - 1] && positions[k] == positions'[k - 1];
        }
      } else {
        assert names == names' && positions == positions';
      }
    }
  }

  /** Listing two runs of entries one after the other lists their directories one after the other. */
  lemma {:induction false} BlogDirectoriesAppend(a: seq<DirEntry>, b: seq<DirEntry>)
    ensures BlogDirectories(a + b) == BlogDirectories(a) + BlogDirectories(b)
  {
    if a == [] {
      assert a + b == b;
    } else {
      assert (a + b)[0] == a[0];
      assert (a + b)[1..] == a[1..] + b;
      BlogDirectoriesAppend(a[1..], b);
    }
  }

  // ----------------------------------------------------------- front matter

  /** The decoded YAML front matter of a post. */
  datatype FrontMatter = FrontMatter(
    title: string,
    date: Instant,
    description: Option<string>,
    image: Option<string>)

  /** The reasons building a post stops (each an `expect`/`panic!` in the source). */
  datatype PostError =
    | CannotReadPost        // the post's index.md cannot be opened or read
    | FrontMatterMissing    // no `---` ... `---` block at the start
    | CannotParseFrontMatter
    | CannotRenderHtml

  const Delimiter: string := "---"

  /**
   * The strings that can sit between the two delimiters: no `---` inside and
   * no trailing `-` (which would form an earlier `---` with the closing one).
   */
  ghost predicate Enclosable(t: string) {
    Lacks(t, Delimiter) && (|t| > 0 ==> t[|t| - 1] != '-')
  }

  /** The text before the leftmost `---` of `rest` is enclosable. */
  lemma TextBeforeDelimiter(rest: string, text: string, body: string)
    requires SplitOnce(rest, Delimiter) == Some((text, body))
    ensures Enclosable(text)
  {
    forall i: nat ensures OccursAt(text, Delimiter, i) ==> OccursAt(rest, Delimiter, i) {
      OccursInPrefix(text, Delimiter + body, Delimiter, i);
    }
    if |text| > 0 {
      var last: nat := |text| - 1;
      assert rest[last..last + 3] == [text[last]] + "--";
      assert text[last] == '-' ==> OccursAt(rest, Delimiter, last);
    }
  }

  /**
   * The delimiter split of `get_front_matter`: the text after an opening `---`
   * at index 0, up to the next `---`. None when the contents do not begin with
   * `---` or no second `---` follows.
   */
  function FrontMatterText(contents: string): (r: Option<string>)
    ensures r.Some? ==> (|r.value| + 6 <= |contents|
      && contents == Delimiter + r.value + Delimiter + contents[|r.value| + 6..])
    ensures r.Some? ==> Enclosable(r.value)
  {
    match SplitOnce(contents, Delimiter)
    case Some((before, rest)) =>
      if before != "" then None
      else
        (match SplitOnce(rest, Delimiter)
         case Some((text, body)) =>
           TextBeforeDelimiter(rest, text, body);
           assert contents == Delimiter + text + Delimiter + body;
           assert contents[|text| + 6..] == body;
           Some(text)
         case None => None)
    case None => None
  }

  /**
   * `get_front_matter` finds front matter exactly when the contents begin with
   * `---` and another `---` follows the opening one.
   */
  lemma FrontMatterPresent(contents: string)
    ensures FrontMatterText(contents).Some? <==>
      OccursAt(contents, Delimiter, 0) && !Lacks(contents[3..], Delimiter)
  {
    if OccursAt(contents, Delimiter, 0) {
      IndexOfIsLeftmost(contents, Delimiter, 0);
      assert contents[..0] == "";
    } else {
      match SplitOnce(contents, Delimiter)
      case Some((before, rest)) =>
        assert before != "";
      case None =>
    }
  }

  /**
   * The converse of `FrontMatterText`: whatever body follows the closing
   * delimiter, the enclosed text is recovered unchanged.
   */
  lemma FrontMatterTextRoundTrip(text: string, body: string)
    requires Enclosable(text)
    ensures FrontMatterText(Delimiter + text + Delimiter + body) == Some(text)
  {
    var contents := Delimiter + text + Delimiter + body;
    var rest := text + Delimiter + body;
    assert contents[3..] == rest;
    forall j: nat | j < |text| ensures !OccursAt(rest, Delimiter, j) {
      if j + 3 <= |text| {
        assert rest[j..j + 3] == text[j..j + 3];
        assert !OccursAt(text, Delimiter, j);
      } else {
        var last: nat := |text| - 1;
        assert rest[last] == text[last] != '-';
        if j + 3 <= |rest| {
          assert rest[j..j + 3][last - j] == rest[last];
        }
      }
    }
    assert OccursAt(rest, Delimiter, |text|) by {
      assert rest[|text|..|text| + 3] == Delimiter;
    }
    IndexOfIsLeftmost(rest, Delimiter, |text|);
    IndexOfIsLeftmost(contents, Delimiter, 0);
  }

  /** Only the text up to the closing delimiter matters: replacing the body leaves the result alone. */
  lemma BodyIsIgnored(contents: string, text: string, other: string)
    requires FrontMatterText(contents) == Some(text)
    ensures FrontMatterText(contents[..|text| + 6] + other) == Some(text)
  {
    assert contents[..|text| + 6] == Delimiter + text + Delimiter;
    FrontMatterTextRoundTrip(text, other);
  }

  /** Contents that begin with an enclosable text between two delimiters yield exactly that text. */
  lemma EnclosedTextIsExtracted(contents: string)
    ensures forall text :: Enclosable(text) && OccursAt(contents, Delimiter + text + Delimiter, 0) ==>
      FrontMatterText(contents) == Some(text)
  {
    forall text | Enclosable(text) && OccursAt(contents, Delimiter + text + Delimiter, 0)
      ensures FrontMatterText(contents) == Some(text)
    {
      var n := |text| + 6;
      assert contents == contents[..n] + contents[n..];
      assert contents[..n] == Delimiter + text + Delimiter;
      FrontMatterTextRoundTrip(text, contents[n..]);
    }
  }

  /** `get_front_matter`: the delimiter split followed by the YAML decoder. */
  function GetFrontMatter(contents: string, decode: string -> Option<FrontMatter>): (r: Result<FrontMatter, PostError>)
    ensures r == Err(FrontMatterMissing) <==>
      !OccursAt(contents, Delimiter, 0) || Lacks(contents[3..], Delimiter)
    ensures r.Err? ==> r.error in {FrontMatterMissing, CannotParseFrontMatter}
    ensures r.Ok? ==> exists text :: (Enclosable(text)
      && OccursAt(contents, Delimiter + text + Delimiter, 0)
      && decode(text) == Some(r.value))
    ensures r == Err(CannotParseFrontMatter) ==> exists text :: (Enclosable(text)
      && OccursAt(contents, Delimiter + text + Delimiter, 0)
      && decode(text).None?)
    ensures forall text :: Enclosable(text) && OccursAt(contents, Delimiter + text + Delimiter, 0) ==>
      (r == Err(CannotParseFrontMatter) <==> decode(text).None?)
      && (decode(text).Some? ==> r == Ok(decode(text).value))
  {
    EnclosedTextIsExtracted(contents);
    match FrontMatterText(contents)
    case None => Err(FrontMatterMissing)
    case Some(text) =>
      match decode(text)
      case None =>
        assert contents[..|text| + 6] == Delimiter + text + Delimiter;
        Err(CannotParseFrontMatter)
      case Some(fm) =>
        assert contents[..|text| + 6] == Delimiter + text + Delimiter;
        Ok(fm)
  }

  // ------------------------------------------------------------------ image

  /** The opening of the pattern `src="([^"]+)"`. */
  const SrcOpen: string := "src=\""

  /** The pattern `src="([^"]+)"` matches at index `p` of `html`, capturing `v`. */
  ghost predicate SrcMatch(html: string, p: nat, v: string) {
    && OccursAt(html, SrcOpen, p)
    && |v| > 0
    && '"' !in v
    && OccursAt(html, v + "\"", p + 5)
  }

  /** What a match at `p` spells out: the capture, then a quote. */
  lemma CaptureText(html: string, p: nat, v: string)
    requires SrcMatch(html, p, v)
    ensures p + 5 + |v| < |html|
    ensures html[p + 5..p + 5 + |v|] == v && html[p + 5 + |v|] == '"'
  {
    assert html[p + 5..p + 5 + |v|] == html[p + 5..p + 5 + |v| + 1][..|v|];
  }

  /** The index of the first `"` in `s` at or after `i`. */
  function QuoteFrom(s: string, i: nat): (r: Option<nat>)
    decreases |s| - i
    ensures r.Some? ==> i <= r.value < |s| && s[r.value] == '"'
    ensures r.Some? ==> forall k :: i <= k < r.value ==> s[k] != '"'
    ensures r.None? ==> forall k :: i <= k < |s| ==> s[k] != '"'
  {
    if i >= |s| then None
    else if s[i] == '"' then Some(i)
    else QuoteFrom(s, i + 1)
  }

  /** Whenever the pattern matches at `p`, the first quote after `src="` ends the capture. */
  lemma QuoteEndsCapture(html: string, p: nat)
    ensures forall v :: SrcMatch(html, p, v) ==> QuoteFrom(html, p + 5) == Some(p + 5 + |v|)
  {
    forall v | SrcMatch(html, p, v) ensures QuoteFrom(html, p + 5) == Some(p + 5 + |v|) {
      CaptureText(html, p, v);
      assert forall k :: p + 5 <= k < p + 5 + |v| ==> html[k] == v[k - p - 5];
    }
  }

  /** A non-empty run up to the first quote after `src="` is a match. */
  lemma CaptureBeforeQuote(html: string, p: nat, q: nat)
    requires OccursAt(html, SrcOpen, p) && QuoteFrom(html, p + 5) == Some(q) && q > p + 5
    ensures SrcMatch(html, p, html[p + 5..q])
  {
    var v := html[p + 5..q];
    forall k | 0 <= k < |v| ensures v[k] != '"' {
      assert v[k] == html[p + 5 + k];
    }
    assert html[p + 5..q + 1] == v + "\"";
  }

  /** The capture of the pattern when it matches at `p`. */
  function SrcCaptureAt(html: string, p: nat): (r: Option<string>)
    ensures r.Some? ==> SrcMatch(html, p, r.value)
    ensures r.None? ==> forall v :: !SrcMatch(html, p, v)
  {
    QuoteEndsCapture(html, p);
    if !OccursAt(html, SrcOpen, p) then None
    else match QuoteFrom(html, p + 5)
      case Some(q) =>
        if q == p + 5 then
          None
        else
          CaptureBeforeQuote(html, p, q);
          Some(html[p + 5..q])
      case None =>
        None
  }

  /** Two captures at the same index are the same: the capture runs to the first quote. */
  lemma {:induction false} SrcCaptureUnique(html: string, p: nat, v: string, w: string)
    requires SrcMatch(html, p, v) && SrcMatch(html, p, w)
    ensures v == w
  {
    QuoteEndsCapture(html, p);
    CaptureText(html, p, v);
    CaptureText(html, p, w);
  }

  /** The leftmost match of the pattern at or after index `from`: its index and capture. */
  function FirstSrcFrom(html: string, from: nat): (r: Option<(nat, string)>)
    decreases |html| - from
    ensures r.Some? ==> from <= r.value.0 && SrcMatch(html, r.value.0, r.value.1)
    ensures r.Some? ==> forall q: nat, v :: from <= q < r.value.0 ==> !SrcMatch(html, q, v)
    ensures r.None? ==> forall q: nat, v :: from <= q ==> !SrcMatch(html, q, v)
  {
    if from + |SrcOpen| > |html| then
      assert forall q: nat :: from <= q ==> !OccursAt(html, SrcOpen, q);
      None
    else match SrcCaptureAt(html, from)
      case Some(v) => Some((from, v))
      case None => FirstSrcFrom(html, from + 1)
  }

  /**
   * The image fallback of `get_post_for_path`: the front matter's image when
   * it has one, otherwise the capture of the leftmost `src="..."` in the HTML.
   */
  function PostImage(fmImage: Option<string>, html: string): (r: Option<string>)
    ensures fmImage.Some? ==> r == fmImage
    ensures fmImage.None? && r.Some? ==> |r.value| > 0 && '"' !in r.value
    ensures fmImage.None? && r.Some? ==> exists p: nat :: (SrcMatch(html, p, r.value)
      && forall q: nat, v :: q < p ==> !SrcMatch(html, q, v))
    ensures fmImage.None? && r.None? ==> forall q: nat, v :: !SrcMatch(html, q, v)
  {
    match fmImage
    case Some(_) => fmImage
    case None =>
      match FirstSrcFrom(html, 0)
      case Some((_, v)) => Some(v)
      case None => None
  }

  // ------------------------------------------------------------------- post

  /** A blog post as the templates see it. */
  datatype Post = Post(
    title: string,
    date: Instant,
    description: Option<string>,
    html: string,
    path: string,
    image: Option<string>)

  /**
   * The collaborators of `get_post_for_path`: `read` gives the contents of
   * `content/blog/<path>/index.md`, `decode` is the YAML decoder and `render`
   * the markdown-to-HTML renderer.
   */
  datatype Env = Env(
    read: string -> Option<string>,
    decode: string -> Option<FrontMatter>,
    render: string -> Option<string>)

  /** `get_post_for_path`: read, cut out the front matter, render, assemble. */
  function PostForPath(path: string, env: Env): (r: Result<Post, PostError>)
    ensures r == Err(CannotReadPost) <==> env.read(path).None?
    ensures env.read(path).Some? && GetFrontMatter(env.read(path).value, env.decode).Err? ==>
      r == Err(GetFrontMatter(env.read(path).value, env.decode).error)
    ensures env.read(path).Some? && GetFrontMatter(env.read(path).value, env.decode).Ok? ==>
      (r == Err(CannotRenderHtml) <==> env.render(env.read(path).value).None?)
    ensures (env.read(path).Some? && GetFrontMatter(env.read(path).value, env.decode).Ok?
      && env.render(env.read(path).value).Some?) ==> r.Ok?
    ensures r.Ok? ==> (env.read(path).Some?
      && GetFrontMatter(env.read(path).value, env.decode).Ok?
      && env.render(env.read(path).value) == Some(r.value.html))
    ensures r.Ok? ==> r.value.path == path
    ensures r.Ok? ==>
      var fm := GetFrontMatter(env.read(path).value, env.decode).value;
      && r.value.title == fm.title
      && r.value.date == fm.date
      && r.value.description == fm.description
      && r.value.image == PostImage(fm.image, r.value.html)
  {
    match env.read(path)
    case None => Err(CannotReadPost)
    case Some(contents) =>
      match GetFrontMatter(contents, env.decode)
      case Err(e) => Err(e)
      case Ok(fm) =>
        match env.render(contents)
        case None => Err(CannotRenderHtml)
        case Some(html) =>
          Ok(Post(fm.title, fm.date, fm.description, html, path, PostImage(fm.image, html)))
  }
}
