/**
 * The in-browser stand-in for the file system: the bundler's eager glob imports become a list
 * of `(key, content)` files in key order, `readdir` lists the post folders named by the keys
 * `…/src/posts/<folder>/index.md`, and `readFile` returns the first file whose key ends with
 * the requested path. The TypeScript version reads only markdown; the JavaScript version
 * falls back to the image imports.
 */
module MockFs {
  import opened Wrappers
  import opened Text

  /** One entry of an eager glob import: its key, and the text (markdown) or module URL (image). */
  datatype File = File(key: string, content: string)

  const PostsPrefix: string := "/src/posts/"
  const IndexSuffix: string := "/index.md"
  const NotFound: string := "File not found"

  // ---------------------------------------------------------------------------------------
  // Matching `/\/src\/posts\/([^/]+)\/index\.md$/`

  /** `folder` is what the pattern captures in `key`. */
  predicate NamesFolder(key: string, folder: string) {
    folder != [] && '/' !in folder && EndsWith(key, PostsPrefix + folder + IndexSuffix)
  }

  /** The length of the longest slash-free end of `b`. */
  function SlashFreeTail(b: string): (n: nat)
    ensures n <= |b| && forall i :: |b| - n <= i < |b| ==> b[i] != '/'
    ensures n < |b| ==> b[|b| - n - 1] == '/'
    decreases |b|
  {
    if b == [] || b[|b| - 1] == '/' then 0
    else SlashFreeTail(b[..|b| - 1]) + 1
  }

  lemma EndsWithParts(s: string, a: string, b: string)
    ensures EndsWith(s, a + b) <==> EndsWith(s, b) && EndsWith(s[..|s| - |b|], a)
  {
    if EndsWith(s, a + b) {
      assert s[|s| - |b|..] == (a + b)[|a|..];
      assert s[..|s| - |b|][|s| - |b| - |a|..] == (a + b)[..|a|];
    }
    if EndsWith(s, b) && EndsWith(s[..|s| - |b|], a) {
      assert s[|s| - |a| - |b|..] == s[..|s| - |b|][|s| - |b| - |a|..] + s[|s| - |b|..];
    }
  }

  lemma EndsWithSplit(s: string, a: string, b: string)
    requires EndsWith(s, a + b)
    ensures EndsWith(s, b) && EndsWith(s[..|s| - |b|], a)
  {
    assert s[|s| - |b|..] == (a + b)[|a|..];
    assert s[..|s| - |b|][|s| - |b| - |a|..] == (a + b)[..|a|];
  }

  /** A slash-free word after a slash is exactly the slash-free end. */
  lemma TailIsWord(b: string, a: string, w: string)
    requires EndsWith(b, a + w) && a != [] && a[|a| - 1] == '/' && '/' !in w
    ensures SlashFreeTail(b) == |w|
  {
    var n := SlashFreeTail(b);
    EndsWithSplit(b, a, w);
    assert b[|b| - |w| - 1] == '/' by {
      assert b[..|b| - |w|][|b| - |w| - |a|..][|a| - 1] == a[|a| - 1];
    }
    assert forall j :: |b| - |w| <= j < |b| ==> b[j] != '/' by {
      forall j | |b| - |w| <= j < |b| ensures b[j] != '/' {
        assert b[j] == b[|b| - |w|..][j - (|b| - |w|)];
      }
    }
  }

  /** The folder a glob key names, if it matches the pattern. */
  function FolderOf(key: string): (r: Option<string>)
    ensures r.Some? ==> NamesFolder(key, r.value)
  {
    Captured(key, PostsPrefix, IndexSuffix)
  }

  /** The slash-free word between `pre` and `suf` at the end of `key`, found from the end. */
  function Captured(key: string, pre: string, suf: string): (r: Option<string>)
    ensures r.Some? ==> r.value != [] && '/' !in r.value && EndsWith(key, pre + r.value + suf)
  {
    if !EndsWith(key, suf) then None
    else
      var body := key[..|key| - |suf|];
      var n := SlashFreeTail(body);
      var word := body[|body| - n..];
      if n > 0 && EndsWith(body[..|body| - n], pre) then
        CapturedSome(key, pre, suf, body, word);
        Some(word)
      else None
  }

  lemma CapturedSome(key: string, pre: string, suf: string, body: string, word: string)
    requires EndsWith(key, suf) && body == key[..|key| - |suf|]
    requires EndsWith(body, word) && EndsWith(body[..|body| - |word|], pre)
    ensures EndsWith(key, pre + word + suf)
  {
    EndsWithParts(body, pre, word);
    EndsWithParts(key, pre + word, suf);
  }

  /** Whatever folder a key names is the one the match captures: no match means no such folder. */
  lemma FolderOfComplete(key: string, x: string)
    requires NamesFolder(key, x)
    ensures FolderOf(key) == Some(x)
  {
    assert PostsPrefix[|PostsPrefix| - 1] == '/';
    CapturedComplete(key, PostsPrefix, IndexSuffix, x);
  }

  lemma CapturedComplete(key: string, pre: string, suf: string, x: string)
    requires pre != [] && pre[|pre| - 1] == '/' && x != [] && '/' !in x
    requires EndsWith(key, pre + x + suf)
    ensures Captured(key, pre, suf) == Some(x)
  {
    var body := key[..|key| - |suf|];
    EndsWithSplit(key, pre + x, suf);
    WordBetween(key, pre, suf, body, x);
  }

  /** A key names at most one folder. */
  lemma FolderUnique(key: string, x: string, y: string)
    requires NamesFolder(key, x) && NamesFolder(key, y)
    ensures x == y
  {
    FolderOfComplete(key, x);
    FolderOfComplete(key, y);
  }

  /**
   * A slash-free word between a prefix ending in `/` and the suffix is the slash-free end of
   * what precedes the suffix, and the prefix ends right before it.
   */
  lemma WordBetween(key: string, pre: string, suf: string, body: string, x: string)
    requires pre != [] && pre[|pre| - 1] == '/' && '/' !in x
    requires EndsWith(key, pre + x + suf) && body == key[..|key| - |suf|]
    ensures SlashFreeTail(body) == |x| && |x| <= |body| && body[|body| - |x|..] == x
    ensures EndsWith(body[..|body| - |x|], pre)
  {
    EndsWithSplit(key, pre + x, suf);
    TailIsWord(body, pre, x);
    EndsWithSplit(body, pre, x);
  }

  // ---------------------------------------------------------------------------------------
  // readdir

  /** The folders in first-seen order, each once (a `Set` in insertion order). */
  function Folders(files: seq<File>): seq<string>
    decreases |files|
  {
    if files == [] then []
    else
      var seen := Folders(files[..|files| - 1]);
      var r := FolderOf(files[|files| - 1].key);
      if r.Some? && r.value !in seen then seen + [r.value] else seen
  }

  /** `readdir(dirPath)`: the argument is stripped of a leading slash and then not used. */
  method Readdir(files: seq<File>, dirPath: string) returns (dirs: seq<string>)
    ensures dirs == Folders(files)
  {
    dirs := [];
    for i := 0 to |files|
      invariant dirs == Folders(files[..i])
    {
      assert files[..i + 1][..i] == files[..i];
      var m := FolderOf(files[i].key);
      if m.Some? && m.value !in dirs {
        dirs := dirs + [m.value];
      }
    }
    assert files[..|files|] == files;
  }

  /** The listing names each matching folder once, and nothing else. */
  lemma FoldersFacts(files: seq<File>)
    ensures forall i, j :: 0 <= i < j < |Folders(files)| ==> Folders(files)[i] != Folders(files)[j]
    ensures forall x :: x in Folders(files) <==> exists k :: 0 <= k < |files| && NamesFolder(files[k].key, x)
  {
    FoldersDistinct(files);
    FoldersMembers(files);
  }

  lemma {:induction false} FoldersDistinct(files: seq<File>)
    ensures forall i, j :: 0 <= i < j < |Folders(files)| ==> Folders(files)[i] != Folders(files)[j]
    decreases |files|
  {
    if files != [] {
      var init := files[..|files| - 1];
      FoldersDistinct(init);
      var seen := Folders(init);
      var r := FolderOf(files[|files| - 1].key);
      if r.Some? && r.value !in seen {
        var out := seen + [r.value];
        forall i, j | 0 <= i < j < |out| ensures out[i] != out[j] {
          assert out[i] == seen[i];
        }
      }
    }
  }

  lemma {:induction false} FoldersMembers(files: seq<File>)
    ensures forall x :: x in Folders(files) <==> exists k :: 0 <= k < |files| && NamesFolder(files[k].key, x)
    decreases |files|
  {
    if files != [] {
      FoldersMembers(files[..|files| - 1]);
      forall x
        ensures x in Folders(files) <==> exists k :: 0 <= k < |files| && NamesFolder(files[k].key, x)
      {
        FoldersMemberStep(files, x);
      }
    }
  }

  /** Adding a file to the listing adds its folder, if it names one, and nothing else. */
  lemma FoldersMemberStep(files: seq<File>, x: string)
    requires files != []
    requires var init := files[..|files| - 1];
      x in Folders(init) <==> exists k :: 0 <= k < |init| && NamesFolder(init[k].key, x)
    ensures x in Folders(files) <==> exists k :: 0 <= k < |files| && NamesFolder(files[k].key, x)
  {
    var init := files[..|files| - 1];
    var last := files[|files| - 1];
    if x in Folders(files) && x !in Folders(init) {
      assert NamesFolder(last.key, x);
    }
    if exists k :: 0 <= k < |files| && NamesFolder(files[k].key, x) {
      var k :| 0 <= k < |files| && NamesFolder(files[k].key, x);
      if k < |files| - 1 {
        assert init[k] == files[k];
      } else {
        FolderOfComplete(last.key, x);
      }
    }
  }

  // ---------------------------------------------------------------------------------------
  // readFile

  /** `path.replace(/^\//, '')`. */
  function StripSlash(path: string): (r: string)
    ensures path != [] && path[0] == '/' ==> r == path[1..]
    ensures !(path != [] && path[0] == '/') ==> r == path
  {
    if path != [] && path[0] == '/' then path[1..] else path
  }

  /** `Object.keys(files).find(key => key.endsWith(path))`, as an index. */
  function FindEnding(files: seq<File>, path: string): (r: Option<nat>)
    ensures r.Some? ==> r.value < |files| && EndsWith(files[r.value].key, path)
    ensures r.Some? ==> forall j :: 0 <= j < r.value ==> !EndsWith(files[j].key, path)
    ensures r.None? ==> forall j :: 0 <= j < |files| ==> !EndsWith(files[j].key, path)
    decreases |files|
  {
    if files == [] then None
    else if EndsWith(files[0].key, path) then Some(0)
    else
      var r := FindEnding(files[1..], path);
      if r.None? then None else Some(r.value + 1)
  }

  /** `readFile` (TypeScript): the first markdown file whose key ends with the path, if that key is non-empty. */
  function ReadFile(files: seq<File>, filePath: string): Result<string, string> {
    var path := StripSlash(filePath);
    var k := FindEnding(files, path);
    if k.Some? && files[k.value].key != [] then Ok(files[k.value].content) else Err(NotFound)
  }

  /** The first file whose key ends with the requested path is the one read. */
  lemma ReadsFirstMatch(files: seq<File>, filePath: string, i: nat)
    requires i < |files| && files[i].key != [] && EndsWith(files[i].key, StripSlash(filePath))
    requires forall j :: 0 <= j < i ==> !EndsWith(files[j].key, StripSlash(filePath))
    ensures ReadFile(files, filePath) == Ok(files[i].content)
  {
    var k := FindEnding(files, StripSlash(filePath));
    assert k == Some(i);
  }

  /** Without a matching key, reading fails with "File not found". */
  lemma MissingFileFails(files: seq<File>, filePath: string)
    requires forall j :: 0 <= j < |files| ==> !EndsWith(files[j].key, StripSlash(filePath))
    ensures ReadFile(files, filePath) == Err(NotFound)
  {
  }

  /** One leading slash makes no difference. */
  lemma LeadingSlashIgnored(files: seq<File>, path: string)
    requires !(path != [] && path[0] == '/')
    ensures ReadFile(files, "/" + path) == ReadFile(files, path)
  {
    var full := "/" + path;
    assert full[0] == '/' && full[1..] == path;
    assert StripSlash(full) == path == StripSlash(path);
  }

  /** Every folder `readdir` lists can be read at `/src/posts/<folder>/index.md`. */
  lemma ListedFoldersReadable(files: seq<File>, folder: string)
    requires folder in Folders(files)
    ensures ReadFile(files, PostsPrefix + folder + IndexSuffix).Ok?
  {
    FoldersFacts(files);
    var k :| 0 <= k < |files| && NamesFolder(files[k].key, folder);
    var full := PostsPrefix + folder + IndexSuffix;
    var path := StripSlash(full);
    assert full == [full[0]] + path && full[0] == '/' by {
      assert full[0] == PostsPrefix[0];
    }
    EndsWithParts(files[k].key, [full[0]], path);
    var r := FindEnding(files, path);
    assert r.Some?;
    assert path != [] by {
      assert |path| == |full| - 1 >= |PostsPrefix|;
    }
  }

  // ---------------------------------------------------------------------------------------
  // readFile (JavaScript): markdown first, then images

  /** What the JavaScript `readFile` returns: a markdown text or an image module. */
  datatype Loaded = Markdown(text: string) | Image(url: string)

  /**
   * `readFile` (JavaScript): the first markdown key ending with the path when both it and its
   * text are non-empty, else the first image key ending with it when that key is non-empty.
   */
  function ReadFileJs(posts: seq<File>, images: seq<File>, filePath: string): Result<Loaded, string> {
    var path := StripSlash(filePath);
    var md := FindEnding(posts, path);
    if md.Some? && posts[md.value].key != [] && posts[md.value].content != [] then
      Ok(Markdown(posts[md.value].content))
    else
      var img := FindEnding(images, path);
      if img.Some? && images[img.value].key != [] then Ok(Image(images[img.value].content))
      else Err(NotFound)
  }

  /** Both versions read the same non-empty markdown; the JavaScript one fails only where the TypeScript one fails too. */
  lemma ReadFileVersionsAgree(posts: seq<File>, images: seq<File>, filePath: string)
    ensures ReadFile(posts, filePath).Ok? && ReadFile(posts, filePath).value != [] ==>
      ReadFileJs(posts, images, filePath) == Ok(Markdown(ReadFile(posts, filePath).value))
    ensures ReadFileJs(posts, images, filePath).Err? ==> ReadFile(posts, filePath) == Err(NotFound) || ReadFile(posts, filePath) == Ok([])
    ensures ReadFileJs(posts, images, filePath).Err? ==> ReadFileJs(posts, images, filePath).error == NotFound
  {
  }

  /** With no markdown key ending with the path, the JavaScript version reads the first matching image. */
  lemma ImageFallback(posts: seq<File>, images: seq<File>, filePath: string, i: nat)
    requires forall j :: 0 <= j < |posts| ==> !EndsWith(posts[j].key, StripSlash(filePath))
    requires i < |images| && images[i].key != [] && EndsWith(images[i].key, StripSlash(filePath))
    requires forall j :: 0 <= j < i ==> !EndsWith(images[j].key, StripSlash(filePath))
    ensures ReadFileJs(posts, images, filePath) == Ok(Image(images[i].content))
  {
    var k := FindEnding(images, StripSlash(filePath));
    assert k == Some(i);
  }
}
