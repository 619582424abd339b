# A verified model of a static blog's content pipeline

The site is a small static blog. At build time it lists the blog directories under `content/blog`. For each directory it reads `index.md`, cuts the YAML front matter out from between two `---` delimiters and renders the markdown to HTML. If the front matter names no image, it takes the first `src="..."` attribute of the HTML as the post's image. The index page then lists every post, newest first, and links each one to `post/<path>`.

The model is four modules:

- `Wrappers` (wrappers.dfy): `Option` and `Result`. Each `expect` of `get_front_matter` and `get_post_for_path` becomes an `Err`. The panics of the directory listing (src/data.rs:14, :17, :20-21) are not modelled; see below.
- `Text` (text.dfy): leftmost substring search and Rust's `str::split_once`.
- `Data` (data.dfy): `src/data.rs`. It covers the directory filter, the front-matter delimiter split, the `src="([^"]+)"` image search written out as an explicit leftmost search, and the assembly of a `Post`.
- `Index` (index.dfy): `src/templates/index.rs`. It covers building one post per directory, the in-place stable sort by date (an array method), the reverse, and the `post/<path>` links.

The file system, the YAML decoder and the markdown renderer are fields of an `Env`. Each is a total function that returns `None` where the Rust code would hit an error. Dates are integer instants.

## Model

| member | source | states |
|---|---|---|
| Text.SplitOnce | src/data.rs:49-51 | `split_once("---")`: the input is prefix + `---` + suffix, the prefix holds no earlier `---`, and the result is None exactly when `---` does not occur |
| Data.BlogDirectories | src/data.rs:11-27 | keeps at most as many names as there are entries, and every name it keeps belongs to a directory entry |
| Data.BlogDirectoriesExact | src/data.rs:19-26 | the k-th name is the name of the k-th directory entry (positions strictly increasing, every directory included), so all directories are kept, in listing order, and nothing else |
| Data.BlogDirectoriesAppend | src/data.rs:19-26 | the filter is applied entry by entry: filtering two concatenated listings is the concatenation of their filters |
| Data.FrontMatterText | src/data.rs:48-56 | the extracted text t satisfies contents == `---` + t + `---` + rest; t contains no `---` and does not end in `-` |
| Data.FrontMatterPresent | src/data.rs:49-55 | front matter is found iff the contents begin with `---` and another `---` follows the opening one |
| Data.FrontMatterTextRoundTrip | src/data.rs:49-52 | for any enclosable t and any body, `---` + t + `---` + body yields exactly t |
| Data.BodyIsIgnored | src/data.rs:51 | replacing everything after the closing delimiter leaves the extracted front matter unchanged |
| Data.EnclosedTextIsExtracted | src/data.rs:49-52 | contents that begin with `---` + t + `---`, t enclosable, yield exactly t |
| Data.GetFrontMatter | src/data.rs:48-56 | fails with "front matter missing" exactly when the delimiters are absent; otherwise, for the enclosed text t (which contains no `---`), it fails with "cannot parse front matter" exactly when the decoder rejects t, and returns the decoder's value for t when it accepts it |
| Data.SrcCaptureAt | src/data.rs:86-87 | returns the capture exactly when the pattern `src="([^"]+)"` matches at that index |
| Data.SrcCaptureUnique | src/data.rs:86-87 | a match at a given index has a single capture, which runs to the first quote |
| Data.FirstSrcFrom | src/data.rs:86-87 | returns a match at or after `from` with no match at an earlier index, or None when nothing matches from there on |
| Data.PostImage | src/data.rs:85-88 | a front-matter image is used unchanged; otherwise the image is the capture of the leftmost match, which is non-empty and quote-free, or None when the HTML has no match |
| Data.PostForPath | src/data.rs:58-99 | errors follow the source's order (read, front matter, render), and when reading, the front matter and rendering all succeed the post is built; a built post has the requested path, the front matter's title, date and description, the rendered HTML, and the image of `PostImage` |
| Index.BuildPosts | src/templates/index.rs:57-60 | on success, one post per directory in directory order, the i-th being the post of the i-th directory; fails iff some directory's post fails, with the error of the first one |
| Index.BuiltPostPaths | src/templates/index.rs:57-60 | the i-th built post's path is the i-th directory name |
| Index.SortByDate | src/templates/index.rs:61 | in place, the array ends sorted by date, and the posts of each date keep their old relative order (a stable sort) |
| Index.InsertAt | src/templates/index.rs:61 | one insertion step extends the sorted prefix by one element: the old `a[i]` is placed at some j, between the old `a[..j]` and `a[j..i]`, the rest of the array is unchanged, and each date's posts stay in order |
| Index.SameDatesSamePosts | src/templates/index.rs:61 | lists that agree on the posts of every date are permutations of each other, so the sort neither adds nor drops a post |
| Index.Reversed | src/templates/index.rs:63 | `rev().collect()` keeps the length |
| Index.ReversedAt | src/templates/index.rs:63 | the k-th element of the reversal is the (n-1-k)-th of the input |
| Index.ReversedPermutes | src/templates/index.rs:63 | reversing is a permutation |
| Index.ReversedWithDate | src/templates/index.rs:61-63 | after reversing, the posts of each date come in the reverse of their earlier order |
| Index.ReversedSortedIsNewestFirst | src/templates/index.rs:61-63 | reversing an oldest-first list gives a newest-first list |
| Index.NewestFirstIsDetermined | src/templates/index.rs:61-63 | a newest-first list is fully determined by the order of the posts within each date |
| Index.SortedIsDetermined | src/templates/index.rs:61 | an oldest-first list is fully determined by the order of the posts within each date, so "sorted by date and stable" fixes the sort's result |
| Index.BuildState | src/templates/index.rs:56-65 | on success there are as many posts as blog directories, and they are a permutation of the built posts; dates never increase, and posts with equal dates come in the reverse of their directory order; a failed post build is passed through as the error |
| Index.PostLink | src/templates/index.rs:34 | the link is `post/` followed by the post's path |
| Index.PostLinkDeterminesPath | src/templates/index.rs:34 | two posts have the same link iff they have the same path |
| Index.IndexEntries | src/templates/index.rs:30-40 | one entry per post, in order, each linking to `post/<path>` and showing the post's title |

## Left out

- Directory listing: reading `content/blog` and its errors (src/data.rs:12-17) are I/O. The listing is an input `seq<DirEntry>`. The panics of `file_type().unwrap()` (an I/O error) and `into_string().unwrap()` (a file name that is not UTF-8) at src/data.rs:20-21 are not modelled, so every name is a string.
- Reading `content/blog/<path>/index.md` (src/data.rs:59-63) is `Env.read`. Its failure is `CannotReadPost`. How the path is joined is not part of this model.
- YAML decoding (`serde_yaml`, src/data.rs:52) is `Env.decode`, an uninterpreted function that may fail.
- Markdown rendering and its options (src/data.rs:67-83) are `Env.render`, an uninterpreted function that may fail. It receives the whole file contents, as in the source.
- The general regex engine. Only the fixed pattern `src="([^"]+)"` is modelled, as an explicit leftmost search.
- Strings are sequences of characters, not UTF-8 bytes. Every pattern searched for is ASCII, so the split and search positions agree.
- Dates are integer instants. chrono's time zones, RFC 3339 formatting and the pretty date on the index page are not modelled. chrono compares `DateTime<FixedOffset>` values by instant, so two dates with different offsets but the same instant are equal sort keys here too.
- Index.SortByDate: this is an insertion sort, not the standard library's merge-based sort. The two share the contract "sorted by date and stable". `Index.SortedIsDetermined` shows that this contract fixes the sorted list, and `Index.NewestFirstIsDetermined` that it fixes the final newest-first list, so the order of the output is the same.
- The index page view (apart from its links and titles), the `Keyed` key by title, `head`, all of src/templates/post.rs, analytics tags, stylesheets and template registration are UI and framework glue.
- The async build-state plumbing and the Perseus template builders are framework glue.
- The binary-tree in-order traversal, with recursive and explicit-stack variants, its tree generator and its property oracle are not part of this model. None of the modelled source files contains code for them.
