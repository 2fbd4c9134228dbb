/** run.py's rendering pipeline: `update_notebook_metadata` rewriting the notebook on disk,
    `notebook_to_markdown` building the post text, `write_hugo_formatted_nb_to_md` choosing
    the output path and writing the post, and the `render_notebooks` batch command. */
module Render {
  import opened Wrappers
  import opened Text
  import opened Notebook
  import opened Dates
  import opened Cells
  import opened Markdown
  import opened FrontMatter

  /** What the model takes as given: the clock reading, nbconvert's `MarkdownExporter` applied
      to a preprocessed cell list, and `json.dumps(..., indent=2)` of the front matter. */
  datatype Env = Env(today: Date, exporter: seq<Cell> -> string, dumps: map<string, string> -> string)

  /** The outcome of an operation on the disk: its value or the exception it raised, and the
      files as they are when it returns or raises. */
  datatype Effect<T> = Effect(result: Result<T, Error>, files: map<string, Entry>)

  // ---------------------------------------------------------------------------
  // update_notebook_metadata (run.py:276-321)

  /** Reads the notebook, computes its new metadata and writes it back with the same cells. */
  function UpdateNotebook(files: map<string, Entry>, path: string, args: Overrides, today: Date): (e: Effect<string>)
    requires ValidDate(today)
    ensures e.result.Success? <==>
      ReadDoc(files, path).Success? && UpdateMetadata(files[path].doc.metadata, Stem(path), args, today).Success?
    ensures e.result.Failure? ==> e.files == files
    ensures e.result.Failure? && ReadDoc(files, path).Failure? ==> e.result.error == ReadDoc(files, path).error
    ensures e.result.Failure? && ReadDoc(files, path).Success? ==>
      e.result.error == UpdateMetadata(files[path].doc.metadata, Stem(path), args, today).error
    ensures e.result.Success? ==> e.result.value == path && e.files.Keys == files.Keys
    ensures e.result.Success? ==> forall p :: p in files && p != path ==> e.files[p] == files[p]
    ensures e.result.Success? ==> (e.files[path] ==
      Notebook(NotebookDoc(Some(UpdateMetadata(files[path].doc.metadata, Stem(path), args, today).value),
                           files[path].doc.cells)))
  {
    match ReadDoc(files, path)
    case Failure(err) => Effect(Failure(err), files)
    case Success(doc) =>
      match UpdateMetadata(doc.metadata, Stem(path), args, today)
      case Failure(err) => Effect(Failure(err), files)
      case Success(m) => Effect(Success(path), files[path := Notebook(NotebookDoc(Some(m), doc.cells))])
  }

  /** `update_notebook_metadata`, editing the metadata dictionary in place as the code does. */
  method UpdateNotebookMetadata(fs: FileSystem, path: string, args: Overrides, today: Date) returns (r: Result<string, Error>)
    requires ValidDate(today)
    modifies fs
    ensures Effect(r, fs.files) == UpdateNotebook(old(fs.files), path, args, today)
  {
    var data :- ReadDoc(fs.files, path);
    var oldFrontMatter := Get(data.metadata, FrontMatterKey);
    var title :- Resolve(args.title, oldFrontMatter, FrontMatterKey, "title", Stem(path));
    var subtitle :- Resolve(args.subtitle, oldFrontMatter, FrontMatterKey, "subtitle", DefaultSubtitle);
    var date :- Resolve(args.date, oldFrontMatter, FrontMatterKey, "date", FormatIso(today));
    var slug :- Resolve(args.slug, oldFrontMatter, FrontMatterKey, "slug", Slugify(title));
    if data.metadata.None? {
      return Failure(KeyError("metadata"));
    }
    var metadata := data.metadata.value;
    metadata := metadata[FrontMatterKey := Object(map["title" := title, "subtitle" := subtitle, "date" := date, "slug" := slug])];
    var renderTo :- Resolve(args.renderTo, Get(Some(metadata), HugoJupyterKey), HugoJupyterKey, "render-to", DefaultRenderTo);
    metadata := metadata[HugoJupyterKey := Object(map["render-to" := renderTo])];
    fs.files := fs.files[path := Notebook(NotebookDoc(Some(metadata), data.cells))];
    r := Success(path);
  }

  // ---------------------------------------------------------------------------
  // notebook_to_markdown (run.py:218-246)

  /** The post text for a notebook read back after the update: the front-matter assertion,
      `dict(...)` of the entry, then the exporter on the preprocessed cells and `doctor`. */
  function RenderedMarkdown(doc: NotebookDoc, env: Env): (r: Result<string, Error>)
    ensures r.Success? <==>
      doc.metadata.Some? && FrontMatterKey in doc.metadata.value && doc.metadata.value[FrontMatterKey].Object?
    ensures doc.metadata.Some? && FrontMatterKey !in doc.metadata.value ==> r == Failure(MissingFrontMatter)
    ensures r.Success? ==>
      var header := env.dumps(doc.metadata.value[FrontMatterKey].fields);
      var body := env.exporter(Preprocessed(doc.cells, BlankRun));
      StartsWith(r.value, "---\n" + header + Marker)
      && Visible(r.value[|"---\n" + header + Marker|..]) == Visible(body)
      && (HeaderSafe(header) ==> SplitPost(r.value) == Some((header, Doctor(body))))
  {
    if doc.metadata.None? then Failure(KeyError("metadata"))
    else if FrontMatterKey !in doc.metadata.value then Failure(MissingFrontMatter)
    else match doc.metadata.value[FrontMatterKey]
      case Other => Failure(NotADict(FrontMatterKey))
      case Object(f) =>
        var header := env.dumps(f);
        var body := env.exporter(Preprocessed(doc.cells, BlankRun));
        var text := Assemble(header, Doctor(body));
        assert text[|"---\n" + header + Marker|..] == Doctor(body);
        DoctorKeepsVisible(body);
        if HeaderSafe(header) then
          SplitAssemble(header, Doctor(body));
          Success(text)
        else
          Success(text)
  }

  /** `notebook_to_markdown(path)`: the update without overrides, then the post text of the
      rewritten notebook. */
  function Convert(files: map<string, Entry>, path: string, env: Env): (e: Effect<string>)
    requires ValidDate(env.today)
    ensures e.files.Keys == files.Keys
    ensures forall p :: p in files && p != path ==> e.files[p] == files[p]
  {
    var u := UpdateNotebook(files, path, NoOverrides, env.today);
    if u.result.Failure? then Effect(Failure(u.result.error), u.files)
    else match ReadDoc(u.files, path)
      case Failure(err) => Effect(Failure(err), u.files)
      case Success(doc) => Effect(RenderedMarkdown(doc, env), u.files)
  }

  /** The front-matter assertion of `notebook_to_markdown` never fires: the update it starts
      with always leaves a `front-matter` object behind, so conversion fails exactly when
      the update does, and then with the update's error. */
  lemma ConvertFailsOnlyInUpdate(files: map<string, Entry>, path: string, env: Env)
    requires ValidDate(env.today)
    ensures Convert(files, path, env).result.Success? <==> UpdateNotebook(files, path, NoOverrides, env.today).result.Success?
    ensures Convert(files, path, env).files == UpdateNotebook(files, path, NoOverrides, env.today).files
    ensures Convert(files, path, env).result != Failure(MissingFrontMatter)
  {
    var u := UpdateNotebook(files, path, NoOverrides, env.today);
    if u.result.Success? {
      var m := UpdateMetadata(files[path].doc.metadata, Stem(path), NoOverrides, env.today).value;
      assert ReadDoc(u.files, path) == Success(NotebookDoc(Some(m), files[path].doc.cells));
      assert m[FrontMatterKey].Object?;
    } else {
      var md := if path in files && files[path].Notebook? then files[path].doc.metadata else None;
      assert u.result.error != MissingFrontMatter;
    }
  }

  /** The post `notebook_to_markdown` returns carries the updated front matter as its header
      and the doctored export of the preprocessed cells as its body. */
  lemma ConvertContent(files: map<string, Entry>, path: string, env: Env)
    requires ValidDate(env.today)
    requires UpdateNotebook(files, path, NoOverrides, env.today).result.Success?
    ensures var doc := files[path].doc;
      var header := env.dumps(FrontMatterFields(Get(doc.metadata, FrontMatterKey), Stem(path), NoOverrides, env.today));
      HeaderSafe(header) ==>
        Convert(files, path, env).result.Success?
        && SplitPost(Convert(files, path, env).result.value)
           == Some((header, Doctor(env.exporter(Preprocessed(doc.cells, BlankRun)))))
  {
    var doc := files[path].doc;
    var m := UpdateMetadata(doc.metadata, Stem(path), NoOverrides, env.today).value;
    var u := UpdateNotebook(files, path, NoOverrides, env.today);
    assert ReadDoc(u.files, path) == Success(NotebookDoc(Some(m), doc.cells));
  }

  /** `notebook_to_markdown`: updates the notebook, reads it back, runs the preprocessor on
      the cell list in place, exports, doctors and assembles. */
  method NotebookToMarkdown(fs: FileSystem, path: string, env: Env) returns (r: Result<string, Error>)
    requires ValidDate(env.today)
    modifies fs
    ensures Effect(r, fs.files) == Convert(old(fs.files), path, env)
  {
    var updated := UpdateNotebookMetadata(fs, path, NoOverrides, env.today);
    if updated.Failure? {
      return Failure(updated.error);
    }
    // The update just wrote a metadata block holding a `front-matter` object, so reading
    // the notebook back succeeds and the assertion of run.py:233 holds.
    var notebook := ReadDoc(fs.files, path).value;
    var entry := notebook.metadata.value[FrontMatterKey];
    var frontMatter := env.dumps(entry.fields);
    var nb := new NotebookNode(notebook);
    Preprocess(nb, BlankRun);
    var markdown := env.exporter(nb.cells);
    r := Success(Assemble(frontMatter, Doctor(markdown)));
  }

  // ---------------------------------------------------------------------------
  // write_hugo_formatted_nb_to_md (run.py:249-273)

  /** `Path(render_to, slug + '.md')` with `slug = metadata['front-matter']['slug']` and
      `render_to = render_to or metadata['hugo-jupyter']['render-to'] or 'content/post/'`
      (lazily: the `hugo-jupyter` entry is only indexed without an override), a `/` appended
      when missing. */
  function OutputTarget(pre: Metadata, renderTo: string): (r: Result<string, Error>)
    ensures r.Success? <==>
      FrontMatterKey in pre && pre[FrontMatterKey].Object? && "slug" in pre[FrontMatterKey].fields
      && (renderTo != [] || (HugoJupyterKey in pre && pre[HugoJupyterKey].Object? && "render-to" in pre[HugoJupyterKey].fields))
    ensures FrontMatterKey !in pre ==> r == Failure(KeyError(FrontMatterKey))
    ensures r.Success? ==>
      var dir := EnsureTrailingSlash(Pick(renderTo, StoredText(Get(Some(pre), HugoJupyterKey), "render-to"), DefaultRenderTo));
      r.value == dir + pre[FrontMatterKey].fields["slug"] + ".md"
      && EndsWith(dir, "/") && StartsWith(r.value, dir) && EndsWith(r.value, ".md")
  {
    if FrontMatterKey !in pre then Failure(KeyError(FrontMatterKey))
    else
      var slug :- Index(pre[FrontMatterKey], FrontMatterKey, "slug");
      var stored :- if renderTo != [] then Success(renderTo)
                    else if HugoJupyterKey !in pre then Failure(KeyError(HugoJupyterKey))
                    else Index(pre[HugoJupyterKey], HugoJupyterKey, "render-to");
      var dir := EnsureTrailingSlash(if stored != [] then stored else DefaultRenderTo);
      var target := dir + slug + ".md";
      assert target[..|dir|] == dir;
      assert target[|target| - 3..] == ".md";
      Success(target)
  }

  /** `write_hugo_formatted_nb_to_md(path, render_to)`: the metadata is read first, from the
      notebook as it is before `notebook_to_markdown` rewrites it; the slug and render-to
      come from that earlier reading. */
  function WriteHugo(files: map<string, Entry>, path: string, renderTo: string, env: Env): (e: Effect<string>)
    requires ValidDate(env.today)
    ensures files.Keys <= e.files.Keys
    ensures e.result.Success? ==> e.files.Keys == files.Keys + {e.result.value} && e.files[e.result.value].Text?
    ensures e.result.Failure? ==> e.files.Keys == files.Keys
    ensures forall p :: p in e.files && p != path && (e.result.Failure? || p != e.result.value) ==> e.files[p] == files[p]
    ensures e.result.Success? ==>
      ReadMetadata(files, path).Success? && OutputTarget(ReadMetadata(files, path).value, renderTo) == e.result
      && Convert(files, path, env).result.Success?
      && e.files == Convert(files, path, env).files[e.result.value := Text(Convert(files, path, env).result.value)]
  {
    match ReadMetadata(files, path)
    case Failure(err) => Effect(Failure(err), files)
    case Success(pre) =>
      var conv := Convert(files, path, env);
      if conv.result.Failure? then Effect(Failure(conv.result.error), conv.files)
      else match OutputTarget(pre, renderTo)
        case Failure(err) => Effect(Failure(err), conv.files)
        case Success(target) => Effect(Success(target), conv.files[target := Text(conv.result.value)])
  }

  method WriteHugoFormattedNbToMd(fs: FileSystem, path: string, renderTo: string, env: Env) returns (r: Result<string, Error>)
    requires ValidDate(env.today)
    modifies fs
    ensures Effect(r, fs.files) == WriteHugo(old(fs.files), path, renderTo, env)
  {
    var notebookMetadata :- ReadMetadata(fs.files, path);
    var rendered :- NotebookToMarkdown(fs, path, env);
    var target :- OutputTarget(notebookMetadata, renderTo);
    fs.files := fs.files[target := Text(rendered)];
    r := Success(target);
  }

  /** The target comes from the metadata as read before the update: a notebook whose stored
      slug is empty, as when it was edited on disk and saved again, is written to
      `<render-to>/.md` even though the update just gave it a slug. */
  lemma StaleEmptySlug(files: map<string, Entry>, path: string, renderTo: string, env: Env)
    requires ValidDate(env.today)
    requires ReadMetadata(files, path).Success?
    requires var m := ReadMetadata(files, path).value;
      FrontMatterKey in m && m[FrontMatterKey].Object? && "slug" in m[FrontMatterKey].fields
      && m[FrontMatterKey].fields["slug"] == []
    ensures var w := WriteHugo(files, path, renderTo, env);
      w.result.Success? ==> EndsWith(w.result.value, "/.md")
  {
    var w := WriteHugo(files, path, renderTo, env);
    if w.result.Success? {
      var m := ReadMetadata(files, path).value;
      var t := OutputTarget(m, renderTo);
      assert t == w.result;
      var dir := EnsureTrailingSlash(Pick(renderTo, StoredText(Get(Some(m), HugoJupyterKey), "render-to"), DefaultRenderTo));
      assert t.value == dir + m[FrontMatterKey].fields["slug"] + ".md";
      SlashThenMd(dir);
    }
  }

  lemma SlashThenMd(dir: string)
    requires EndsWith(dir, "/")
    ensures EndsWith(dir + [] + ".md", "/.md")
  {
    var t := dir + [] + ".md";
    assert t[|t| - 4..] == dir[|dir| - 1..] + ".md";
  }

  /** Metadata that an update leaves as it is, as any metadata is once updated. */
  predicate Settled(files: map<string, Entry>, path: string, today: Date)
    requires ValidDate(today)
  {
    path in files && files[path].Notebook? && files[path].doc.metadata.Some?
    && UpdateMetadata(files[path].doc.metadata, Stem(path), NoOverrides, today) == Success(files[path].doc.metadata.value)
  }

  /** An update leaves a notebook that the next update does not change. */
  lemma UpdateSettles(files: map<string, Entry>, path: string, args: Overrides, today: Date, later: Date)
    requires ValidDate(today) && ValidDate(later)
    requires UpdateNotebook(files, path, args, today).result.Success?
    ensures Settled(UpdateNotebook(files, path, args, today).files, path, later)
  {
    UpdateIdempotent(files[path].doc.metadata, Stem(path), args, NoOverrides, today, later);
  }

  /** Writing an already updated notebook puts the post at `<render-to>/<slug>.md`, with the
      directory ending in one `/`, and changes no other file. */
  lemma WriteSettled(files: map<string, Entry>, path: string, renderTo: string, env: Env)
    requires ValidDate(env.today)
    requires Settled(files, path, env.today)
    ensures var m := files[path].doc.metadata.value;
      var w := WriteHugo(files, path, renderTo, env);
      var target := EnsureTrailingSlash(Pick(renderTo, m[HugoJupyterKey].fields["render-to"], DefaultRenderTo))
                    + m[FrontMatterKey].fields["slug"] + ".md";
      w.result == Success(target)
      && Convert(files, path, env).result.Success?
      && w.files == files[target := Text(Convert(files, path, env).result.value)]
  {
    var m := files[path].doc.metadata.value;
    ConvertFailsOnlyInUpdate(files, path, env);
    var u := UpdateNotebook(files, path, NoOverrides, env.today);
    assert u.files[path] == files[path];
    assert u.files == files;
    assert m[FrontMatterKey].Object? && m[HugoJupyterKey].Object?;
    assert StoredText(Get(Some(m), HugoJupyterKey), "render-to") == m[HugoJupyterKey].fields["render-to"];
  }

  /** The quirk of the early metadata read: a notebook saved without front matter is
      rewritten with one, and then the slug lookup on the earlier reading fails, so no post
      is written. */
  lemma WriteWithoutPriorFrontMatter(files: map<string, Entry>, path: string, renderTo: string, env: Env)
    requires ValidDate(env.today)
    requires UpdateNotebook(files, path, NoOverrides, env.today).result.Success?
    requires FrontMatterKey !in files[path].doc.metadata.value
    ensures WriteHugo(files, path, renderTo, env)
         == Effect(Failure(KeyError(FrontMatterKey)), UpdateNotebook(files, path, NoOverrides, env.today).files)
  {
    ConvertFailsOnlyInUpdate(files, path, env);
  }

  // ---------------------------------------------------------------------------
  // render_notebooks and update_notebooks_metadata (run.py:81-95)

  /** The filter of `update_notebooks_metadata`, applied to the glob result
      `notebooks/<name>.ipynb` as a whole. */
  predicate SelectedForRender(path: string) {
    !StartsWith(path, ".") && !Contains(Lower(path), "untitled")
  }

  /** The filter looks at the whole path, which starts with `notebooks/`, so a hidden notebook
      is still rendered; an untitled one is not, whatever its case. */
  lemma HiddenSelected()
    ensures SelectedForRender("notebooks/.draft.ipynb")
  {
    var p := "notebooks/.draft.ipynb";
    assert p[..1] == "n";
    assert 'u' !in p && 'U' !in p;
    LowerAvoids(p, 'u');
    assert "untitled"[0] == 'u';
    NotContainsWithoutHead(Lower(p), "untitled");
  }

  /** The general form: a globbed `notebooks/<name>` is selected exactly when `untitled`,
      in any case, is not part of `<name>`; the hidden-file test never rejects it. */
  lemma SelectedNotebook(name: string)
    ensures SelectedForRender("notebooks/" + name) <==> !Contains(Lower(name), "untitled")
  {
    var dir := "notebooks/";
    var p := dir + name;
    assert p[..1] == "n";
    assert Lower(p) == dir + Lower(name) by {
      forall k | 0 <= k < |p| ensures Lower(p)[k] == (dir + Lower(name))[k] {
        if k < |dir| { assert p[k] == dir[k]; } else { assert p[k] == name[k - |dir|]; }
      }
    }
    assert 'u' !in dir;
    ContainsSkip(dir, Lower(name), "untitled");
  }

  lemma UntitledNotSelected()
    ensures !SelectedForRender("notebooks/Untitled1.ipynb")
  {
    var p := Lower("notebooks/Untitled1.ipynb");
    assert p[10..][..8] == "untitled";
    ContainsAt(p, "untitled", 10);
  }

  /** `render_notebooks`: for each selected notebook in glob order, the update of the
      generator and then the write, stopping at the first exception; the result lists the
      posts written. */
  function RenderAll(files: map<string, Entry>, paths: seq<string>, env: Env): Effect<seq<string>>
    requires ValidDate(env.today)
    decreases |paths|
  {
    if paths == [] then Effect(Success([]), files)
    else if !SelectedForRender(paths[0]) then RenderAll(files, paths[1..], env)
    else
      var u := UpdateNotebook(files, paths[0], NoOverrides, env.today);
      if u.result.Failure? then Effect(Failure(u.result.error), u.files)
      else
        var w := WriteHugo(u.files, paths[0], "", env);
        if w.result.Failure? then Effect(Failure(w.result.error), w.files)
        else Prefixed([w.result.value], RenderAll(w.files, paths[1..], env))
  }

  /** The outcome of the remaining notebooks, after the posts listed in `written`. */
  function Prefixed(written: seq<string>, rest: Effect<seq<string>>): Effect<seq<string>> {
    Effect(if rest.result.Success? then Success(written + rest.result.value) else rest.result, rest.files)
  }

  lemma PrefixedNothing(rest: Effect<seq<string>>)
    ensures Prefixed([], rest) == rest
  {
    if rest.result.Success? {
      assert [] + rest.result.value == rest.result.value;
    }
  }

  lemma PrefixedAppend(a: seq<string>, b: seq<string>, rest: Effect<seq<string>>)
    ensures Prefixed(a, Prefixed(b, rest)) == Prefixed(a + b, rest)
  {
    if rest.result.Success? {
      assert a + (b + rest.result.value) == (a + b) + rest.result.value;
    }
  }

  /** The globbed paths that pass the filter, in glob order. */
  function SelectedPaths(paths: seq<string>): (s: seq<string>)
    ensures |s| <= |paths|
    ensures forall k :: 0 <= k < |s| ==> SelectedForRender(s[k]) && s[k] in paths
    decreases |paths|
  {
    if paths == [] then []
    else if SelectedForRender(paths[0]) then [paths[0]] + SelectedPaths(paths[1..])
    else SelectedPaths(paths[1..])
  }

  /** A notebook the filter rejects is skipped altogether: the batch does exactly what it
      does on the selected paths alone. */
  lemma {:induction false} RenderAllSkipsUnselected(files: map<string, Entry>, paths: seq<string>, env: Env)
    requires ValidDate(env.today)
    ensures RenderAll(files, paths, env) == RenderAll(files, SelectedPaths(paths), env)
    decreases |paths|
  {
    if paths != [] {
      var s := SelectedPaths(paths);
      if SelectedForRender(paths[0]) {
        assert s[0] == paths[0] && s[1..] == SelectedPaths(paths[1..]);
        var u := UpdateNotebook(files, paths[0], NoOverrides, env.today);
        if u.result.Failure? {
          assert RenderAll(files, s, env) == Effect(Failure(u.result.error), u.files);
        } else {
          var w := WriteHugo(u.files, paths[0], "", env);
          if w.result.Failure? {
            assert RenderAll(files, s, env) == Effect(Failure(w.result.error), w.files);
          } else {
            RenderAllSkipsUnselected(w.files, paths[1..], env);
            assert RenderAll(files, s, env) == Prefixed([w.result.value], RenderAll(w.files, s[1..], env));
          }
        }
      } else {
        RenderAllSkipsUnselected(files, paths[1..], env);
      }
    }
  }

  /** Every text file of `files` is still a text file in `files'`. */
  ghost predicate TextStays(files: map<string, Entry>, files': map<string, Entry>) {
    forall p :: p in files && files[p].Text? ==> p in files' && files'[p].Text?
  }

  lemma TextStaysTrans(a: map<string, Entry>, b: map<string, Entry>, c: map<string, Entry>)
    requires TextStays(a, b) && TextStays(b, c)
    ensures TextStays(a, c)
  {
  }

  /** A successful write keeps every text file a text file and leaves its post on disk as
      text under a `.md` name. */
  lemma WriteHugoKeepsText(files: map<string, Entry>, path: string, renderTo: string, env: Env)
    requires ValidDate(env.today)
    requires WriteHugo(files, path, renderTo, env).result.Success?
    ensures var e := WriteHugo(files, path, renderTo, env);
      TextStays(files, e.files) && e.result.value in e.files && e.files[e.result.value].Text?
      && EndsWith(e.result.value, ".md")
  {
    var e := WriteHugo(files, path, renderTo, env);
    assert ReadMetadata(files, path).Success?;
    assert files[path].Notebook?;
  }

  /** A successful update keeps every text file: only the notebook itself is rewritten. */
  lemma UpdateKeepsText(files: map<string, Entry>, path: string, today: Date)
    requires ValidDate(today)
    requires UpdateNotebook(files, path, NoOverrides, today).result.Success?
    ensures TextStays(files, UpdateNotebook(files, path, NoOverrides, today).files)
  {
    assert files[path].Notebook?;
  }

  /** A successful batch whose first path is selected: the update and the write both
      succeeded, and the rest of the batch follows them. */
  lemma RenderHead(files: map<string, Entry>, paths: seq<string>, env: Env)
    requires ValidDate(env.today) && paths != [] && SelectedForRender(paths[0])
    requires RenderAll(files, paths, env).result.Success?
    ensures var u := UpdateNotebook(files, paths[0], NoOverrides, env.today);
      u.result.Success? && WriteHugo(u.files, paths[0], "", env).result.Success?
      && var w := WriteHugo(u.files, paths[0], "", env);
      RenderAll(w.files, paths[1..], env).result.Success?
      && RenderAll(files, paths, env) == Prefixed([w.result.value], RenderAll(w.files, paths[1..], env))
  {
  }

  /** A successful batch whose every listed post is on disk as text under a `.md` name. */
  ghost predicate PostsOnDisk(e: Effect<seq<string>>) {
    e.result.Success?
    && forall i :: 0 <= i < |e.result.value| ==>
         e.result.value[i] in e.files && e.files[e.result.value[i]].Text? && EndsWith(e.result.value[i], ".md")
  }

  /** One more post in front of a batch that keeps its posts on disk. */
  lemma PostsCons(files: map<string, Entry>, mid: map<string, Entry>, t: string, rest: Effect<seq<string>>)
    requires TextStays(files, mid) && t in mid && mid[t].Text? && EndsWith(t, ".md")
    requires PostsOnDisk(rest) && TextStays(mid, rest.files)
    ensures var e := Prefixed([t], rest);
      PostsOnDisk(e) && |e.result.value| == |rest.result.value| + 1 && TextStays(files, e.files)
  {
    var e := Prefixed([t], rest);
    forall i | 0 <= i < |e.result.value|
      ensures e.result.value[i] in e.files && e.files[e.result.value[i]].Text? && EndsWith(e.result.value[i], ".md")
    {
      if i > 0 { assert e.result.value[i] == rest.result.value[i - 1]; }
    }
  }

  /** A successful batch lists one post per selected notebook, each under a `.md` name and on
      disk as text afterwards; no text file is turned into anything else. */
  lemma {:induction false} RenderAllPosts(files: map<string, Entry>, paths: seq<string>, env: Env)
    requires ValidDate(env.today)
    requires RenderAll(files, paths, env).result.Success?
    ensures var e := RenderAll(files, paths, env);
      |e.result.value| == |SelectedPaths(paths)| && TextStays(files, e.files) && PostsOnDisk(e)
    decreases |paths|
  {
    if paths != [] {
      if SelectedForRender(paths[0]) {
        RenderHead(files, paths, env);
        var u := UpdateNotebook(files, paths[0], NoOverrides, env.today);
        var w := WriteHugo(u.files, paths[0], "", env);
        var rest := RenderAll(w.files, paths[1..], env);
        assert RenderAll(files, paths, env) == Prefixed([w.result.value], rest);
        UpdateKeepsText(files, paths[0], env.today);
        WriteHugoKeepsText(u.files, paths[0], "", env);
        TextStaysTrans(files, u.files, w.files);
        RenderAllPosts(w.files, paths[1..], env);
        PostsCons(files, w.files, w.result.value, rest);
        assert SelectedPaths(paths) == [paths[0]] + SelectedPaths(paths[1..]);
        assert |RenderAll(files, paths, env).result.value| == |rest.result.value| + 1;
        assert |SelectedPaths(paths)| == |SelectedPaths(paths[1..])| + 1;
      } else {
        RenderAllPosts(files, paths[1..], env);
        assert RenderAll(files, paths, env) == RenderAll(files, paths[1..], env);
        assert SelectedPaths(paths) == SelectedPaths(paths[1..]);
      }
    } else {
      assert RenderAll(files, paths, env) == Effect(Success([]), files);
      assert TextStays(files, files);
      assert PostsOnDisk(RenderAll(files, paths, env));
    }
  }

  /** Where the batch puts the post of `path`: `<render-to>/<slug>.md`, both resolved from
      the notebook's metadata as it is on disk before the batch starts (`""` for a path
      that holds no notebook). */
  function PlannedPost(files: map<string, Entry>, path: string, today: Date): string
    requires ValidDate(today)
  {
    if path in files && files[path].Notebook? then
      var md := files[path].doc.metadata;
      EnsureTrailingSlash(HugoJupyterFields(Get(md, HugoJupyterKey), NoOverrides)["render-to"])
      + FrontMatterFields(Get(md, FrontMatterKey), Stem(path), NoOverrides, today)["slug"] + ".md"
    else ""
  }

  /** What `glob('*.ipynb')` yields: distinct paths, each ending in `.ipynb`. */
  ghost predicate Globbed(paths: seq<string>) {
    (forall i, j :: 0 <= i < j < |paths| ==> paths[i] != paths[j])
    && forall i :: 0 <= i < |paths| ==> EndsWith(paths[i], ".ipynb")
  }

  /** A later globbed path is a notebook path other than the first. */
  lemma GlobbedTail(paths: seq<string>, q: string)
    requires Globbed(paths) && paths != [] && q in paths[1..]
    ensures q != paths[0] && EndsWith(q, ".ipynb")
  {
    var k :| 0 <= k < |paths[1..]| && paths[1..][k] == q;
    assert paths[k + 1] == q;
  }

  /** A post can never be a notebook path. */
  lemma MdIsNotIpynb(post: string, path: string)
    requires EndsWith(post, ".md") && EndsWith(path, ".ipynb")
    ensures post != path
  {
    assert post[|post| - 3..][2] == 'd';
    assert path[|path| - 6..][5] == 'b';
  }

  /** A notebook that neither the update nor the write touches keeps its planned post. */
  lemma PlannedPostKept(files: map<string, Entry>, u: map<string, Entry>, w: map<string, Entry>,
                        path: string, post: string, q: string, today: Date)
    requires ValidDate(today) && q != path && q != post
    requires u.Keys == files.Keys && forall p :: p in files && p != path ==> u[p] == files[p]
    requires w.Keys == u.Keys + {post} && forall p :: p in w && p != path && p != post ==> w[p] == u[p]
    ensures PlannedPost(w, q, today) == PlannedPost(files, q, today)
  {
    assert q in w <==> q in files;
    if q in files {
      assert w[q] == u[q] == files[q];
    }
  }

  /** The first turn of a successful batch over globbed paths leaves every later notebook
      as it was: the update rewrites the first notebook only, and the write adds a `.md`
      post, which no notebook path is. */
  lemma HeadKeepsLater(files: map<string, Entry>, paths: seq<string>, env: Env)
    requires ValidDate(env.today) && paths != [] && Globbed(paths)
    requires UpdateNotebook(files, paths[0], NoOverrides, env.today).result.Success?
    requires WriteHugo(UpdateNotebook(files, paths[0], NoOverrides, env.today).files, paths[0], "", env).result.Success?
    ensures var u := UpdateNotebook(files, paths[0], NoOverrides, env.today);
      var w := WriteHugo(u.files, paths[0], "", env);
      forall q :: q in paths[1..] ==> PlannedPost(w.files, q, env.today) == PlannedPost(files, q, env.today)
  {
    var u := UpdateNotebook(files, paths[0], NoOverrides, env.today);
    var w := WriteHugo(u.files, paths[0], "", env);
    WriteHugoKeepsText(u.files, paths[0], "", env);
    var post := w.result.value;
    assert u.files.Keys == files.Keys && forall p :: p in files && p != paths[0] ==> u.files[p] == files[p];
    assert w.files.Keys == u.files.Keys + {post};
    assert forall p :: p in w.files && p != paths[0] && p != post ==> w.files[p] == u.files[p];
    forall q | q in paths[1..]
      ensures PlannedPost(w.files, q, env.today) == PlannedPost(files, q, env.today)
    {
      GlobbedTail(paths, q);
      MdIsNotIpynb(post, q);
      PlannedPostKept(files, u.files, w.files, paths[0], post, q, env.today);
    }
  }

  /** A successful batch over globbed paths lists, in glob order, the post of each selected
      notebook at the place its metadata before the batch gives it. */
  lemma {:induction false} RenderAllTargets(files: map<string, Entry>, paths: seq<string>, env: Env)
    requires ValidDate(env.today) && Globbed(paths)
    requires RenderAll(files, paths, env).result.Success?
    ensures var e := RenderAll(files, paths, env);
      var s := SelectedPaths(paths);
      |e.result.value| == |s|
      && forall i :: 0 <= i < |s| ==> e.result.value[i] == PlannedPost(files, s[i], env.today)
    decreases |paths|
  {
    if paths == [] {
      assert RenderAll(files, paths, env) == Effect(Success([]), files);
    } else {
      assert Globbed(paths[1..]) by {
        forall i | 0 <= i < |paths[1..]| ensures EndsWith(paths[1..][i], ".ipynb") {
          assert paths[1..][i] == paths[i + 1];
        }
        forall i, j | 0 <= i < j < |paths[1..]| ensures paths[1..][i] != paths[1..][j] {
          assert paths[1..][i] == paths[i + 1] && paths[1..][j] == paths[j + 1];
        }
      }
      if SelectedForRender(paths[0]) {
        TargetsStep(files, paths, env);
      } else {
        RenderAllTargets(files, paths[1..], env);
        assert RenderAll(files, paths, env) == RenderAll(files, paths[1..], env);
        assert SelectedPaths(paths) == SelectedPaths(paths[1..]);
      }
    }
  }

  /** The step of RenderAllTargets for a selected first notebook. */
  lemma {:induction false} TargetsStep(files: map<string, Entry>, paths: seq<string>, env: Env)
    requires ValidDate(env.today) && paths != [] && SelectedForRender(paths[0])
    requires Globbed(paths) && Globbed(paths[1..])
    requires RenderAll(files, paths, env).result.Success?
    ensures var e := RenderAll(files, paths, env);
      var s := SelectedPaths(paths);
      |e.result.value| == |s|
      && forall i :: 0 <= i < |s| ==> e.result.value[i] == PlannedPost(files, s[i], env.today)
    decreases |paths|, 0
  {
    RenderHead(files, paths, env);
    var u := UpdateNotebook(files, paths[0], NoOverrides, env.today);
    var w := WriteHugo(u.files, paths[0], "", env);
    var rest := RenderAll(w.files, paths[1..], env);
    RenderAllTargets(w.files, paths[1..], env);
    HeadKeepsLater(files, paths, env);
    UpdateThenWrite(files, paths[0], env);
    assert SelectedPaths(paths) == [paths[0]] + SelectedPaths(paths[1..]);
    PlannedCons(files, w.files, env.today, paths[0], SelectedPaths(paths[1..]), paths[1..],
                w.result.value, rest.result.value, RenderAll(files, paths, env).result.value);
  }

  /** The planned posts of `[first] + later`, given the head's post and the planned posts
      of `later` on a disk where they did not change. */
  lemma PlannedCons(files: map<string, Entry>, mid: map<string, Entry>, today: Date, first: string,
                    later: seq<string>, pool: seq<string>, post: string, rest: seq<string>, all: seq<string>)
    requires ValidDate(today)
    requires post == PlannedPost(files, first, today) && all == [post] + rest && |rest| == |later|
    requires forall j :: 0 <= j < |later| ==> rest[j] == PlannedPost(mid, later[j], today) && later[j] in pool
    requires forall q :: q in pool ==> PlannedPost(mid, q, today) == PlannedPost(files, q, today)
    ensures |all| == |[first] + later|
      && forall i :: 0 <= i < |all| ==> all[i] == PlannedPost(files, ([first] + later)[i], today)
  {
    var f := q => PlannedPost(files, q, today);
    var s := [first] + later;
    assert s[1..] == later;
    MappedCons(f, s, all, rest);
  }

  method RenderNotebooks(fs: FileSystem, paths: seq<string>, env: Env) returns (r: Result<seq<string>, Error>)
    requires ValidDate(env.today)
    modifies fs
    ensures Effect(r, fs.files) == RenderAll(old(fs.files), paths, env)
  {
    var written: seq<string> := [];
    var i := 0;
    assert paths[0..] == paths;
    PrefixedNothing(RenderAll(fs.files, paths, env));
    while i < |paths|
      invariant 0 <= i <= |paths|
      invariant Prefixed(written, RenderAll(fs.files, paths[i..], env)) == RenderAll(old(fs.files), paths, env)
    {
      var step := RenderNotebook(fs, paths, i, env);
      if step.Failure? {
        return Failure(step.error);
      }
      PrefixedAppend(written, step.value, RenderAll(fs.files, paths[i + 1..], env));
      written := written + step.value;
      i := i + 1;
    }
    assert written + [] == written;
    r := Success(written);
  }

  /** One turn of the batch loop: a selected notebook is updated, then written; the posts
      written in this turn are returned. */
  method RenderNotebook(fs: FileSystem, paths: seq<string>, i: nat, env: Env) returns (r: Result<seq<string>, Error>)
    requires ValidDate(env.today) && i < |paths|
    modifies fs
    ensures r.Failure? ==> RenderAll(old(fs.files), paths[i..], env) == Effect(Failure(r.error), fs.files)
    ensures r.Success? ==> RenderAll(old(fs.files), paths[i..], env) == Prefixed(r.value, RenderAll(fs.files, paths[i + 1..], env))
  {
    assert paths[i..][0] == paths[i] && paths[i..][1..] == paths[i + 1..];
    if !SelectedForRender(paths[i]) {
      PrefixedNothing(RenderAll(fs.files, paths[i + 1..], env));
      return Success([]);
    }
    var updated := UpdateNotebookMetadata(fs, paths[i], NoOverrides, env.today);
    if updated.Failure? {
      return Failure(updated.error);
    }
    var target := WriteHugoFormattedNbToMd(fs, paths[i], "", env);
    if target.Failure? {
      return Failure(target.error);
    }
    r := Success([target.value]);
  }

  /** One notebook of the batch command: the update, then the write of its post at
      `<render-to>/<slug>.md`, both taken from the metadata the update wrote (the output
      directory ending in one `/`). */
  lemma UpdateThenWrite(files: map<string, Entry>, path: string, env: Env)
    requires ValidDate(env.today)
    requires UpdateNotebook(files, path, NoOverrides, env.today).result.Success?
    ensures var md := files[path].doc.metadata;
      var u := UpdateNotebook(files, path, NoOverrides, env.today);
      WriteHugo(u.files, path, "", env).result
      == Success(EnsureTrailingSlash(HugoJupyterFields(Get(md, HugoJupyterKey), NoOverrides)["render-to"])
                 + FrontMatterFields(Get(md, FrontMatterKey), Stem(path), NoOverrides, env.today)["slug"] + ".md")
  {
    var md := files[path].doc.metadata;
    var u := UpdateNotebook(files, path, NoOverrides, env.today);
    var m := UpdateMetadata(md, Stem(path), NoOverrides, env.today).value;
    assert u.files[path].doc.metadata == Some(m);
    UpdateSettles(files, path, NoOverrides, env.today, env.today);
    WriteSettled(u.files, path, "", env);
    var rt := HugoJupyterFields(Get(md, HugoJupyterKey), NoOverrides)["render-to"];
    assert m[HugoJupyterKey].fields["render-to"] == rt && rt != [];
  }

  /** The example notebook `{"front-matter": {"title": "Hello World", "slug": "", "date": ""}}`,
      under any name and beside any other files, is rendered to `content/post/hello-world.md`. */
  lemma HelloWorldRendered(files: map<string, Entry>, path: string, env: Env)
    requires ValidDate(env.today)
    requires path in files && files[path].Notebook?
    requires files[path].doc.metadata == Some(map[FrontMatterKey := Object(map["title" := "Hello World", "slug" := "", "date" := ""])])
    ensures WriteHugo(UpdateNotebook(files, path, NoOverrides, env.today).files, path, "", env).result
         == Success("content/post/hello-world.md")
  {
    var md := files[path].doc.metadata;
    HelloWorldExample(Stem(path), env.today);
    var r := UpdateMetadata(md, Stem(path), NoOverrides, env.today);
    var x := HugoJupyterFields(Get(md, HugoJupyterKey), NoOverrides)["render-to"];
    var y := FrontMatterFields(Get(md, FrontMatterKey), Stem(path), NoOverrides, env.today)["slug"];
    assert x == DefaultRenderTo;
    assert y == "hello-world";
    UpdateThenWrite(files, path, env);
    HelloWorldTarget(WriteHugo(UpdateNotebook(files, path, NoOverrides, env.today).files, path, "", env).result, x, y);
  }

  /** The default directory already ends in `/`, so the example's post lands right under it. */
  lemma HelloWorldTarget(written: Result<string, Error>, dir: string, slug: string)
    requires dir == DefaultRenderTo && slug == "hello-world"
    requires written == Success(EnsureTrailingSlash(dir) + slug + ".md")
    ensures written == Success("content/post/hello-world.md")
  {
    assert DefaultRenderTo[|DefaultRenderTo| - 1..] == "/";
    assert EnsureTrailingSlash(dir) == "content/post/";
    assert "content/post/" + "hello-world" + ".md" == "content/post/hello-world.md";
  }

  /** The notebook of the example, saved as `notebooks/hello.ipynb`, is one the batch
      command renders. */
  lemma HelloSelected()
    ensures SelectedForRender("notebooks/hello.ipynb")
  {
    var path := "notebooks/hello.ipynb";
    assert path[..1] == "n";
    assert 'u' !in path && 'U' !in path;
    LowerAvoids(path, 'u');
    assert "untitled"[0] == 'u';
    NotContainsWithoutHead(Lower(path), "untitled");
  }
}
