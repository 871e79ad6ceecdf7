/** `src/lib/posts.server.ts` (and `src/lib/posts.ts`, whose metadata
    and file-name logic is the same): the list of posts is read from the
    Markdown files of the posts directory, one entry per ".md" file, with
    defaults for missing front matter, newest first. The directory
    listing, the parsed front matter and the date parser are inputs. */
module PostsLib {
  import opened Wrappers
  import opened JsText
  import opened Sorting

  /** The front matter fields the site reads; None is an absent field. */
  datatype FrontMatter = FrontMatter(
    title: Option<string>,
    date: Option<string>,
    tags: Option<seq<string>>,
    excerpt: Option<string>)

  /** A file of the posts directory: its name, its front matter and the
      Markdown after it. */
  datatype PostFile = PostFile(name: string, data: FrontMatter, content: string)

  datatype PostMetadata = PostMetadata(slug: string, title: string, date: string, tags: seq<string>, excerpt: string)

  /** What `getPostBySlug` returns: the front matter as it is, without
      defaults, and the Markdown the page renders. */
  datatype Post = Post(slug: string, metadata: FrontMatter, content: string)

  predicate IsMarkdownName(name: string) {
    EndsWith(name, ".md")
  }

  /** `fileName.replace(/\.md$/, '')`: a trailing ".md" is removed. */
  function StripMd(name: string): (r: string)
    ensures IsMarkdownName(name) ==> r + ".md" == name
    ensures !IsMarkdownName(name) ==> r == name
  {
    if IsMarkdownName(name) then name[..|name| - 3] else name
  }

  /** The file `getPostBySlug` reads. */
  function FileName(slug: string): (r: string)
    ensures IsMarkdownName(r) && |r| == |slug| + 3
  {
    var r := slug + ".md";
    assert r[|r| - 3..] == ".md";
    r
  }

  /** Slug and file name are inverse: the file read for a slug gives
      back that slug, and every Markdown file is the file of its slug. */
  lemma SlugRoundTrip(slug: string)
    ensures StripMd(FileName(slug)) == slug
  {
    var name := FileName(slug);
    assert name[..|name| - 3] == slug;
  }

  lemma FileNameRoundTrip(name: string)
    requires IsMarkdownName(name)
    ensures FileName(StripMd(name)) == name
  {
  }

  /** The `.filter` step: the Markdown files, in listing order, each as
      often as it is listed. */
  function MarkdownFiles(files: seq<PostFile>): (r: seq<PostFile>)
    ensures forall f :: multiset(r)[f] == if IsMarkdownName(f.name) then multiset(files)[f] else 0
    ensures forall i :: 0 <= i < |r| ==> IsMarkdownName(r[i].name)
  {
    if |files| == 0 then []
    else
      var last := files[|files| - 1];
      assert files == files[..|files| - 1] + [last];
      MarkdownFiles(files[..|files| - 1]) + if IsMarkdownName(last.name) then [last] else []
  }

  /** The `.map` step: the slug, and the defaults for falsy fields. */
  function Metadata(f: PostFile): (m: PostMetadata)
    ensures m.slug == StripMd(f.name)
    ensures m.title != "" || m.slug == ""
    ensures Truthy(f.data.title) ==> m.title == f.data.title.value
    ensures !Truthy(f.data.title) ==> m.title == m.slug
    ensures m.date == if Truthy(f.data.date) then f.data.date.value else "Unknown date"
    ensures m.tags == f.data.tags.GetOr([])
    ensures m.excerpt == f.data.excerpt.GetOr("")
  {
    var slug := StripMd(f.name);
    PostMetadata(
      slug,
      if Truthy(f.data.title) then f.data.title.value else slug,
      if Truthy(f.data.date) then f.data.date.value else "Unknown date",
      f.data.tags.GetOr([]),
      if Truthy(f.data.excerpt) then f.data.excerpt.value else "")
  }

  function Entries(files: seq<PostFile>): (r: seq<PostMetadata>)
    ensures |r| == |files|
    ensures forall i :: 0 <= i < |files| ==> r[i] == Metadata(files[i])
  {
    if |files| == 0 then [] else Entries(files[..|files| - 1]) + [Metadata(files[|files| - 1])]
  }

  /** The sort key: the comparator orders by `new Date(date).getTime()`;
      `parseDate` gives that time, or None when it is NaN. */
  function DateKey(parseDate: string -> Option<int>): PostMetadata -> int {
    (m: PostMetadata) => parseDate(m.date).GetOr(0)
  }

  predicate AllDated(entries: seq<PostMetadata>, parseDate: string -> Option<int>) {
    forall i :: 0 <= i < |entries| ==> parseDate(entries[i].date).Some?
  }

  /** `getPostMetadata`. When every date parses, the entries are put
      newest first by the stable sort; otherwise the comparator returns
      NaN for some pairs and the order is left to the engine, and the
      model keeps the listing order. */
  function GetPostMetadata(files: seq<PostFile>, parseDate: string -> Option<int>): (r: seq<PostMetadata>)
    ensures |r| == |MarkdownFiles(files)|
    ensures multiset(r) == multiset(Entries(MarkdownFiles(files)))
    ensures AllDated(Entries(MarkdownFiles(files)), parseDate) ==> SortedDesc(r, DateKey(parseDate))
  {
    var entries := Entries(MarkdownFiles(files));
    if AllDated(entries, parseDate) then SortDesc(entries, DateKey(parseDate)) else entries
  }

  /** Every entry of the list comes from a Markdown file of the
      directory, and every Markdown file gives an entry. */
  lemma EntriesAreMarkdownFiles(files: seq<PostFile>, parseDate: string -> Option<int>)
    ensures forall m :: m in GetPostMetadata(files, parseDate) <==>
      exists f :: f in files && IsMarkdownName(f.name) && m == Metadata(f)
  {
    var r := GetPostMetadata(files, parseDate);
    forall m | m in r ensures exists f :: f in files && IsMarkdownName(f.name) && m == Metadata(f) {
      ListedEntryHasFile(files, parseDate, m);
    }
    forall f | f in files && IsMarkdownName(f.name) ensures Metadata(f) in r {
      MarkdownFileListed(files, parseDate, f);
    }
  }

  lemma ListedEntryHasFile(files: seq<PostFile>, parseDate: string -> Option<int>, m: PostMetadata)
    requires m in GetPostMetadata(files, parseDate)
    ensures exists f :: f in files && IsMarkdownName(f.name) && m == Metadata(f)
  {
    var md := MarkdownFiles(files);
    assert m in multiset(Entries(md));
    var i :| 0 <= i < |md| && Entries(md)[i] == m;
    assert multiset(md)[md[i]] > 0;
    assert md[i] in files;
  }

  lemma MarkdownFileListed(files: seq<PostFile>, parseDate: string -> Option<int>, f: PostFile)
    requires f in files && IsMarkdownName(f.name)
    ensures Metadata(f) in GetPostMetadata(files, parseDate)
  {
    var md := MarkdownFiles(files);
    assert multiset(md)[f] > 0;
    var i :| 0 <= i < |md| && md[i] == f;
    assert Entries(md)[i] == Metadata(f);
    assert Metadata(f) in multiset(GetPostMetadata(files, parseDate));
  }

  /** The file of the given name, as `fs.readFileSync` finds it; None
      when there is none (the read throws). */
  function FindFile(files: seq<PostFile>, name: string): (r: Option<PostFile>)
    ensures r.Some? ==> r.value in files && r.value.name == name
    ensures r.None? <==> forall f :: f in files ==> f.name != name
  {
    if |files| == 0 then None
    else if files[0].name == name then Some(files[0])
    else FindFile(files[1..], name)
  }

  /** `getPostBySlug`: the raw front matter and the Markdown of the file
      `slug + ".md"`; None when the read fails. */
  function GetPostBySlug(slug: string, files: seq<PostFile>): (r: Option<Post>)
    ensures r.Some? <==> exists f :: f in files && f.name == FileName(slug)
    ensures r.Some? ==> r.value.slug == slug
    ensures r.Some? ==> exists f :: f in files && f.name == FileName(slug) && r.value == Post(slug, f.data, f.content)
  {
    var f := FindFile(files, FileName(slug));
    if f.None? then None else Some(Post(slug, f.value.data, f.value.content))
  }

  /** In a directory (no two files share a name) the slug of every listed
      post leads back to the file it came from. */
  lemma ListedSlugsResolve(files: seq<PostFile>, parseDate: string -> Option<int>, f: PostFile)
    requires forall i, j :: 0 <= i < j < |files| ==> files[i].name != files[j].name
    requires f in files && IsMarkdownName(f.name)
    ensures Metadata(f) in GetPostMetadata(files, parseDate)
    ensures GetPostBySlug(Metadata(f).slug, files) == Some(Post(Metadata(f).slug, f.data, f.content))
  {
    MarkdownFileListed(files, parseDate, f);
    FileNameRoundTrip(f.name);
    var g := FindFile(files, f.name).value;
    var i :| 0 <= i < |files| && files[i] == f;
    var j :| 0 <= j < |files| && files[j] == g;
    assert i == j;
  }
}
