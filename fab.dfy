/** fabfile.py's older pipeline: the notebook is converted as it is on disk (no metadata
    update, no `doctor`), the post always goes to `content/post/<stem>.md`, and the watcher
    simply re-renders on every creation or modification. */
module Fab {
  import opened Wrappers
  import opened Text
  import opened Notebook
  import opened Cells
  import opened Markdown
  import opened Render

  const PostDir := "content/post/"

  // ---------------------------------------------------------------------------
  // convert_notebook_to_hugo_markdown (fabfile.py:90-106)

  /** The post text: the front-matter assertion, `dict(...)` of the entry, then the exporter
      on the cells as the blank-removing preprocessor leaves them, joined with the header
      lines and no further rewriting. */
  function FabMarkdown(files: map<string, Entry>, path: string, env: Env): (r: Result<string, Error>)
    ensures r.Success? <==>
      ReadDoc(files, path).Success? && files[path].doc.metadata.Some?
      && FrontMatterKey in files[path].doc.metadata.value && files[path].doc.metadata.value[FrontMatterKey].Object?
    ensures ReadDoc(files, path).Failure? ==> r == Failure(ReadDoc(files, path).error)
    ensures ReadDoc(files, path).Success? && files[path].doc.metadata.None? ==> r == Failure(KeyError("metadata"))
    ensures ReadDoc(files, path).Success? && files[path].doc.metadata.Some? && FrontMatterKey !in files[path].doc.metadata.value
            ==> r == Failure(MissingFrontMatter)
    ensures r.Failure? && ReadDoc(files, path).Success? && files[path].doc.metadata.Some? && FrontMatterKey in files[path].doc.metadata.value
            ==> r.error == NotADict(FrontMatterKey)
    ensures r.Success? ==>
      var header := env.dumps(files[path].doc.metadata.value[FrontMatterKey].fields);
      var body := env.exporter(Preprocessed(files[path].doc.cells, BlankFab));
      StartsWith(r.value, "---\n" + header + Marker) && EndsWith(r.value, body)
      && |r.value| == 4 + |header| + |Marker| + |body|
      && (HeaderSafe(header) ==> SplitPost(r.value) == Some((header, body)))
  {
    var doc :- ReadDoc(files, path);
    if doc.metadata.None? then Failure(KeyError("metadata"))
    else if FrontMatterKey !in doc.metadata.value then Failure(MissingFrontMatter)
    else match doc.metadata.value[FrontMatterKey]
      case Other => Failure(NotADict(FrontMatterKey))
      case Object(f) =>
        var header := env.dumps(f);
        var body := env.exporter(Preprocessed(doc.cells, BlankFab));
        var text := Assemble(header, body);
        assert text[..|"---\n" + header + Marker|] == "---\n" + header + Marker;
        if HeaderSafe(header) then
          SplitAssemble(header, body);
          Success(text)
        else
          Success(text)
  }

  /** `convert_notebook_to_hugo_markdown`: reads the notebook, runs the preprocessor on its
      cell list in place, exports and joins; the disk is only read. */
  method ConvertNotebookToHugoMarkdown(fs: FileSystem, path: string, env: Env) returns (r: Result<string, Error>)
    ensures r == FabMarkdown(fs.files, path, env)
  {
    var notebook :- ReadDoc(fs.files, path);
    if notebook.metadata.None? {
      return Failure(KeyError("metadata"));
    }
    if FrontMatterKey !in notebook.metadata.value {
      return Failure(MissingFrontMatter);
    }
    var entry := notebook.metadata.value[FrontMatterKey];
    if entry.Other? {
      return Failure(NotADict(FrontMatterKey));
    }
    var frontMatter := env.dumps(entry.fields);
    var nb := new NotebookNode(notebook);
    Preprocess(nb, BlankFab);
    var markdown := env.exporter(nb.cells);
    r := Success(Assemble(frontMatter, markdown));
  }

  /** A notebook whose metadata has no `front-matter` is not converted, however its cells
      look; nothing is rewritten to supply one. */
  lemma NoFrontMatterNoPost(files: map<string, Entry>, path: string, env: Env)
    requires path in files && files[path].Notebook? && files[path].doc.metadata.Some?
    requires FrontMatterKey !in files[path].doc.metadata.value
    ensures FabWrite(files, path, env) == Effect(Failure(MissingFrontMatter), files)
  {
  }

  // ---------------------------------------------------------------------------
  // write_jupyter_to_md (fabfile.py:109-114)

  /** `Path('content/post/', notebook.stem + '.md')`. */
  function FabTarget(path: string): (target: string)
    ensures StartsWith(target, PostDir) && EndsWith(target, ".md")
    ensures '/' !in target[|PostDir|..]
  {
    var target := PostDir + Stem(path) + ".md";
    assert target[..|PostDir|] == PostDir;
    assert target[|target| - 3..] == ".md";
    assert target[|PostDir|..] == Stem(path) + ".md";
    target
  }

  /** Converts the notebook and writes the post at the path derived from the notebook's
      file name. */
  function FabWrite(files: map<string, Entry>, path: string, env: Env): (e: Effect<string>)
    ensures e.result.Success? <==> FabMarkdown(files, path, env).Success?
    ensures e.result.Failure? ==> e.result.error == FabMarkdown(files, path, env).error && e.files == files
    ensures e.result.Success? ==>
      e.result.value == FabTarget(path)
      && e.files == files[FabTarget(path) := Text(FabMarkdown(files, path, env).value)]
  {
    match FabMarkdown(files, path, env)
    case Failure(err) => Effect(Failure(err), files)
    case Success(markdown) => Effect(Success(FabTarget(path)), files[FabTarget(path) := Text(markdown)])
  }

  method WriteJupyterToMd(fs: FileSystem, path: string, env: Env) returns (r: Result<string, Error>)
    modifies fs
    ensures Effect(r, fs.files) == FabWrite(old(fs.files), path, env)
  {
    var hugoMarkdown :- ConvertNotebookToHugoMarkdown(fs, path, env);
    var hugoFile := PostDir + Stem(path) + ".md";
    fs.files := fs.files[hugoFile := Text(hugoMarkdown)];
    r := Success(hugoFile);
  }

  /** A notebook `notebooks/<base>.ipynb` is written to `content/post/<base>.md`. */
  lemma TargetOfNotebook(base: string)
    requires base != [] && '/' !in base
    ensures FabTarget("notebooks/" + base + ".ipynb") == PostDir + base + ".md"
  {
    StemOfNotebook("notebooks/", base);
  }

  /** Where the post goes depends on the file name alone: two notebooks under the same path
      that both convert, whatever their metadata and cells, are written to the same post. */
  lemma TargetIgnoresMetadata(files: map<string, Entry>, path: string, doc: NotebookDoc, doc': NotebookDoc, env: Env)
    requires FabWrite(files[path := Notebook(doc)], path, env).result.Success?
    requires FabWrite(files[path := Notebook(doc')], path, env).result.Success?
    ensures FabWrite(files[path := Notebook(doc)], path, env).result == FabWrite(files[path := Notebook(doc')], path, env).result
  {
  }

  /** Writing leaves the notebook untouched, so converting it again right away writes the
      same post once more and changes nothing: the create-then-modify events of one save do
      no harm. */
  lemma {:induction false} RewriteChangesNothing(files: map<string, Entry>, path: string, env: Env)
    requires FabTarget(path) != path
    requires FabWrite(files, path, env).result.Success?
    ensures var e := FabWrite(files, path, env);
      FabWrite(e.files, path, env) == e
  {
    var e := FabWrite(files, path, env);
    assert e.files[path] == files[path];
    assert ReadDoc(e.files, path) == ReadDoc(files, path);
    assert FabMarkdown(e.files, path, env) == FabMarkdown(files, path, env);
    assert e.files[FabTarget(path) := Text(FabMarkdown(files, path, env).value)] == e.files;
  }

  // ---------------------------------------------------------------------------
  // render_notebooks (fabfile.py:18-23)

  /** Every globbed notebook in order, with no filter, stopping at the first exception. */
  function FabRenderAll(files: map<string, Entry>, paths: seq<string>, env: Env): Effect<seq<string>>
    decreases |paths|
  {
    if paths == [] then Effect(Success([]), files)
    else
      var w := FabWrite(files, paths[0], env);
      if w.result.Failure? then Effect(Failure(w.result.error), w.files)
      else Prefixed([w.result.value], FabRenderAll(w.files, paths[1..], env))
  }

  /** The first write of a successful batch: it succeeded, its post is on disk as text,
      and the rest of the batch follows it. */
  lemma FabHead(files: map<string, Entry>, paths: seq<string>, env: Env)
    requires paths != [] && FabRenderAll(files, paths, env).result.Success?
    ensures var w := FabWrite(files, paths[0], env);
      w.result == Success(FabTarget(paths[0])) && TextStays(files, w.files)
      && FabTarget(paths[0]) in w.files && w.files[FabTarget(paths[0])].Text?
      && FabRenderAll(w.files, paths[1..], env).result.Success?
      && FabRenderAll(files, paths, env) == Prefixed([FabTarget(paths[0])], FabRenderAll(w.files, paths[1..], env))
  {
  }

  /** The posts of a batch that succeeds are the stem-derived targets of all notebooks, in
      glob order, and each of them is on disk as text afterwards; no text file is turned
      into anything else. */
  lemma {:induction false} FabRenderAllTargets(files: map<string, Entry>, paths: seq<string>, env: Env)
    requires FabRenderAll(files, paths, env).result.Success?
    ensures var e := FabRenderAll(files, paths, env);
      |e.result.value| == |paths|
      && (forall i :: 0 <= i < |paths| ==> e.result.value[i] == FabTarget(paths[i]))
      && TextStays(files, e.files) && PostsOnDisk(e)
    decreases |paths|
  {
    if paths == [] {
      assert TextStays(files, files);
      assert PostsOnDisk(FabRenderAll(files, paths, env));
    } else {
      FabHead(files, paths, env);
      var w := FabWrite(files, paths[0], env);
      var rest := FabRenderAll(w.files, paths[1..], env);
      FabRenderAllTargets(w.files, paths[1..], env);
      PostsCons(files, w.files, FabTarget(paths[0]), rest);
      MappedCons(FabTarget, paths, Prefixed([FabTarget(paths[0])], rest).result.value, rest.result.value);
    }
  }

  method RenderNotebooks(fs: FileSystem, paths: seq<string>, env: Env) returns (r: Result<seq<string>, Error>)
    modifies fs
    ensures Effect(r, fs.files) == FabRenderAll(old(fs.files), paths, env)
  {
    var written: seq<string> := [];
    var i := 0;
    assert paths[0..] == paths;
    PrefixedNothing(FabRenderAll(fs.files, paths, env));
    while i < |paths|
      invariant 0 <= i <= |paths|
      invariant Prefixed(written, FabRenderAll(fs.files, paths[i..], env)) == FabRenderAll(old(fs.files), paths, env)
    {
      assert paths[i..][0] == paths[i] && paths[i..][1..] == paths[i + 1..];
      ghost var before := fs.files;
      var target := WriteJupyterToMd(fs, paths[i], env);
      if target.Failure? {
        assert FabRenderAll(before, paths[i..], env) == Effect(Failure(target.error), fs.files);
        return Failure(target.error);
      }
      assert FabRenderAll(before, paths[i..], env) == Prefixed([target.value], FabRenderAll(fs.files, paths[i + 1..], env));
      PrefixedAppend(written, [target.value], FabRenderAll(fs.files, paths[i + 1..], env));
      written := written + [target.value];
      i := i + 1;
    }
    assert written + [] == written;
    r := Success(written);
  }

  // ---------------------------------------------------------------------------
  // NotebookHandler (fabfile.py:117-127)

  /** The fabfile's watcher keeps no registry: both events re-render the notebook, and an
      exception leaves the handler. A deletion is watchdog's default, which does nothing. */
  class NotebookHandler {
    constructor ()
    {
    }

    method Process(fs: FileSystem, src: string, env: Env) returns (r: Result<string, Error>)
      modifies fs
      ensures Effect(r, fs.files) == FabWrite(old(fs.files), src, env)
    {
      r := WriteJupyterToMd(fs, src, env);
    }

    method OnModified(fs: FileSystem, src: string, env: Env) returns (r: Result<string, Error>)
      modifies fs
      ensures Effect(r, fs.files) == FabWrite(old(fs.files), src, env)
    {
      r := Process(fs, src, env);
    }

    method OnCreated(fs: FileSystem, src: string, env: Env) returns (r: Result<string, Error>)
      modifies fs
      ensures Effect(r, fs.files) == FabWrite(old(fs.files), src, env)
    {
      r := Process(fs, src, env);
    }

    method OnDeleted(fs: FileSystem, src: string)
      ensures fs.files == old(fs.files)
    {
    }
  }
}
