/** run.py's `NotebookHandler`: the watch registry (last metadata read per notebook, posts
    rendered per notebook) and its event handlers, over the files on disk. */
module Watcher {
  import opened Wrappers
  import opened Text
  import opened Notebook
  import opened FrontMatter
  import opened Dates
  import opened Render

  /** The disk and the handler's two dictionaries: `notebook_metadata` and the defaultdict
      `notebook_render`, in which a missing key reads as the empty set. */
  datatype State = State(files: map<string, Entry>, metadata: map<string, Metadata>, render: map<string, set<string>>)

  /** The state after a handler returns, and the exception it caught and printed, if any. */
  datatype Handled = Handled(state: State, logged: Option<Error>)

  /** How a post gets written: `write_hugo_formatted_nb_to_md(path, render_to)` as a function
      of the files, the notebook path and the render-to override. */
  type Writer = (map<string, Entry>, string, string) -> Effect<string>

  /** The writer of run.py. */
  function WriterOf(env: Env): (w: Writer)
    requires ValidDate(env.today)
    ensures forall files, path, renderTo :: w(files, path, renderTo) == WriteHugo(files, path, renderTo, env)
  {
    (files, path, renderTo) => WriteHugo(files, path, renderTo, env)
  }

  /** A writer that touches only the notebook and the post it reports, and creates that
      post as text: what the watcher's properties need of rendering. */
  ghost predicate WritesOnlyPost(write: Writer) {
    forall files, path, renderTo :: WritesOnlyPostAt(files, path, write(files, path, renderTo))
  }

  ghost predicate WritesOnlyPostAt(files: map<string, Entry>, path: string, e: Effect<string>) {
    files.Keys <= e.files.Keys
    && (e.result.Success? ==> e.files.Keys == files.Keys + {e.result.value} && e.files[e.result.value].Text?)
    && (e.result.Failure? ==> e.files.Keys == files.Keys)
    && (forall p :: p in e.files && p != path && (e.result.Failure? || p != e.result.value) ==> e.files[p] == files[p])
  }

  /** `write_hugo_formatted_nb_to_md` is such a writer. */
  lemma WriteHugoWritesOnlyPost(env: Env)
    requires ValidDate(env.today)
    ensures WritesOnlyPost(WriterOf(env))
  {
    forall files, path, renderTo ensures WritesOnlyPostAt(files, path, WriterOf(env)(files, path, renderTo)) {
      var e := WriteHugo(files, path, renderTo, env);
      assert WritesOnlyPostAt(files, path, e);
    }
  }

  /** `notebook_render[src]` without the insertion the defaultdict makes. */
  function Tracked(render: map<string, set<string>>, src: string): set<string> {
    if src in render then render[src] else {}
  }

  /** The test of run.py:341, negated: a provisional name is a notebook still called
      "untitled" (in any case) or an editor's temporary `.~` file. */
  predicate IsProvisional(src: string) {
    Contains(Lower(src), "untitled") || Contains(src, ".~")
  }

  /** Every tracked set of `s` is still there in `t`, at least as large. */
  ghost predicate TrackedGrow(s: State, t: State) {
    forall p :: p in s.render ==> p in t.render && s.render[p] <= t.render[p]
  }

  // ---------------------------------------------------------------------------
  // delete_notebook_md (run.py:371-376)

  /** Unlinks every existing file tracked for `src`; the defaultdict lookup records `src`. */
  function DeleteStep(s: State, src: string): (t: State)
    ensures t.files.Keys == s.files.Keys - Tracked(s.render, src)
    ensures forall p :: p in t.files ==> t.files[p] == s.files[p]
    ensures t.metadata == s.metadata
    ensures src in t.render && t.render[src] == Tracked(s.render, src)
    ensures forall p :: p in s.render ==> p in t.render && t.render[p] == s.render[p]
    ensures t.render.Keys == s.render.Keys + {src}
  {
    var tracked := Tracked(s.render, src);
    State(map p | p in s.files && p !in tracked :: s.files[p], s.metadata, s.render[src := tracked])
  }

  // ---------------------------------------------------------------------------
  // update_notebook_metadata_registry (run.py:378-383)

  /** Reads the notebook's metadata into the registry. A file that is not JSON is reported
      and skipped; a missing file, or a notebook without `metadata`, raises. */
  function RegistryRead(files: map<string, Entry>, metadata: map<string, Metadata>, src: string): (r: Result<map<string, Metadata>, Error>)
    ensures r.Failure? <==> src !in files || (files[src].Notebook? && files[src].doc.metadata.None?)
    ensures r.Failure? ==> r.error == if src !in files then FileNotFound(src) else KeyError("metadata")
    ensures r.Success? && files[src].Text? ==> r.value == metadata
    ensures r.Success? && files[src].Notebook? ==> r.value == metadata[src := files[src].doc.metadata.value]
  {
    match ReadMetadata(files, src)
    case Success(m) => Success(metadata[src := m])
    case Failure(err) => if err.JsonDecodeError? then Success(metadata) else Failure(err)
  }

  // ---------------------------------------------------------------------------
  // get_render_to_field (run.py:385-391)

  /** `notebook_metadata[src].get('hugo-jupyter', {}).get('render-to')`, with the KeyError of
      an unregistered notebook caught (as `None`, here the empty string). An entry that is
      not an object raises an AttributeError, which this method does not catch. */
  function RenderToField(metadata: map<string, Metadata>, src: string): (r: Result<string, Error>)
    ensures r.Failure? <==> src in metadata && HugoJupyterKey in metadata[src] && metadata[src][HugoJupyterKey].Other?
    ensures r.Failure? ==> r.error == NotADict(HugoJupyterKey)
    ensures r.Success? ==> r.value == (if src in metadata then StoredText(Get(Some(metadata[src]), HugoJupyterKey), "render-to") else "")
  {
    if src !in metadata then Success("")
    else match Get(Some(metadata[src]), HugoJupyterKey)
      case None => Success("")
      case Some(Other) => Failure(NotADict(HugoJupyterKey))
      case Some(Object(f)) => Success(if "render-to" in f then f["render-to"] else "")
  }

  // ---------------------------------------------------------------------------
  // process, on_modified, on_created, on_deleted (run.py:336-369)

  /** `process(event)`: for a notebook that is not provisional, the old posts are unlinked,
      the registry refreshed, the render-to looked up, the post written and tracked. Any
      exception is caught and printed; the state is what it was when the exception rose. */
  function ProcessStep(s: State, src: string, write: Writer): (h: Handled)
    ensures IsProvisional(src) ==> h == Handled(s, None)
    ensures !IsProvisional(src) ==>
      var d := DeleteStep(s, src);
      var read := RegistryRead(d.files, d.metadata, src);
      (read.Failure? ==> h == Handled(d, Some(read.error)))
      && (read.Success? ==> h.state.metadata == read.value)
  {
    if IsProvisional(src) then Handled(s, None)
    else
      var d := DeleteStep(s, src);
      match RegistryRead(d.files, d.metadata, src)
      case Failure(err) => Handled(d, Some(err))
      case Success(registry) =>
        var r := d.(metadata := registry);
        match RenderToField(registry, src)
        case Failure(err) => Handled(r, Some(err))
        case Success(renderTo) =>
          var w := write(r.files, src, renderTo);
          match w.result
          case Failure(err) => Handled(r.(files := w.files), Some(err))
          case Success(target) => Handled(State(w.files, registry, r.render[src := r.render[src] + {target}]), None)
  }

  /** `on_created`: the update outside the `try` of `process`; when it raises, the exception
      leaves the handler (the `Failure`) and nothing has changed. */
  function CreatedStep(s: State, src: string, env: Env, write: Writer): (r: Result<Handled, Error>)
    requires ValidDate(env.today)
    ensures r.Failure? <==> UpdateNotebook(s.files, src, NoOverrides, env.today).result.Failure?
    ensures r.Failure? ==> r.error == UpdateNotebook(s.files, src, NoOverrides, env.today).result.error
  {
    var u := UpdateNotebook(s.files, src, NoOverrides, env.today);
    if u.result.Failure? then Failure(u.result.error)
    else Success(ProcessStep(s.(files := u.files), src, write))
  }

  /** What each handler leaves behind: the registry as it was, or the escaped exception. */
  function HandledOrRaised(h: Result<Handled, Error>, before: State): State {
    if h.Success? then h.value.state else before
  }

  // ---------------------------------------------------------------------------
  // Properties of the handlers

  /** `on_deleted` unlinks exactly the tracked files of the notebook that exist, and leaves
      every other file as it was. */
  lemma DeletedRemovesExactlyTracked(s: State, src: string)
    ensures var t := DeleteStep(s, src);
      (forall p :: p in s.files && p in Tracked(s.render, src) ==> p !in t.files)
      && (forall p :: p in s.files && p !in Tracked(s.render, src) ==> p in t.files && t.files[p] == s.files[p])
      && t.files.Keys <= s.files.Keys
  {
  }

  /** Processing never forgets a tracked post, not even one it has just unlinked. */
  lemma ProcessTrackedGrow(s: State, src: string, write: Writer)
    ensures TrackedGrow(s, ProcessStep(s, src, write).state)
    ensures s.metadata.Keys <= ProcessStep(s, src, write).state.metadata.Keys
  {
    if !IsProvisional(src) {
      var d := DeleteStep(s, src);
      assert TrackedGrow(s, d);
    }
  }

  /** No handler forgets a tracked post: after `on_created`, `on_modified` or `on_deleted`,
      whether or not an exception escaped, every tracked set is at least what it was. */
  lemma HandlersTrackedGrow(s: State, src: string, env: Env, write: Writer)
    requires ValidDate(env.today)
    ensures TrackedGrow(s, HandledOrRaised(CreatedStep(s, src, env, write), s))
    ensures TrackedGrow(s, ProcessStep(s, src, write).state)
    ensures TrackedGrow(s, DeleteStep(s, src))
  {
    var u := UpdateNotebook(s.files, src, NoOverrides, env.today);
    ProcessTrackedGrow(s.(files := u.files), src, write);
    ProcessTrackedGrow(s, src, write);
  }

  /** The post `process` writes for a notebook that is not provisional, if it gets that far. */
  function NewPost(s: State, src: string, write: Writer): Option<string> {
    var d := DeleteStep(s, src);
    match RegistryRead(d.files, d.metadata, src)
    case Failure(_) => None
    case Success(registry) =>
      match RenderToField(registry, src)
      case Failure(_) => None
      case Success(renderTo) =>
        var w := write(d.files, src, renderTo);
        if w.result.Success? then Some(w.result.value) else None
  }

  /** No stale post survives processing: of the posts tracked for the notebook, only the
      one just written (and the notebook itself) can still be on disk afterwards, and that
      post is tracked along with every earlier one. */
  lemma ProcessLeavesNoStalePost(s: State, src: string, write: Writer)
    requires WritesOnlyPost(write)
    requires !IsProvisional(src)
    ensures var h := ProcessStep(s, src, write);
      var post := NewPost(s, src, write);
      (h.logged.None? <==> post.Some?)
      && (forall p :: p in Tracked(s.render, src) && p in h.state.files ==> p == src || post == Some(p))
      && (post.Some? ==> h.state.render[src] == Tracked(s.render, src) + {post.value}
                         && post.value in h.state.files && h.state.files[post.value].Text?)
  {
    var d := DeleteStep(s, src);
    assert forall p :: p in Tracked(s.render, src) ==> p !in d.files;
    match RegistryRead(d.files, d.metadata, src)
    case Failure(_) =>
    case Success(registry) =>
      match RenderToField(registry, src)
      case Failure(_) =>
      case Success(renderTo) =>
        assert WritesOnlyPostAt(d.files, src, write(d.files, src, renderTo));
  }

  /** Saving a notebook whose metadata has no `front-matter` yet: `process` updates the
      notebook on disk with the default front matter, then fails on the metadata it read
      before the update and logs the KeyError; no post is written or tracked. */
  lemma FirstSaveWithoutFrontMatter(s: State, src: string, env: Env)
    requires ValidDate(env.today)
    requires !IsProvisional(src)
    requires src in s.files && src !in Tracked(s.render, src)
    requires s.files[src].Notebook? && s.files[src].doc.metadata.Some?
    requires FrontMatterKey !in s.files[src].doc.metadata.value
    requires HugoJupyterKey !in s.files[src].doc.metadata.value
    ensures var d := DeleteStep(s, src);
      var h := ProcessStep(s, src, WriterOf(env));
      h.logged == Some(KeyError(FrontMatterKey))
      && h.state.files == UpdateNotebook(d.files, src, NoOverrides, env.today).files
      && h.state.render == d.render
      && h.state.metadata == s.metadata[src := s.files[src].doc.metadata.value]
  {
    var d := DeleteStep(s, src);
    assert d.files[src] == s.files[src];
    var registry := RegistryRead(d.files, d.metadata, src).value;
    assert RenderToField(registry, src) == Success("");
    WriteWithoutPriorFrontMatter(d.files, src, "", env);
  }

  // ---------------------------------------------------------------------------
  // The handler object

  class NotebookHandler {
    /** `notebook_metadata`: the metadata last read for each notebook path. */
    var notebookMetadata: map<string, Metadata>
    /** `notebook_render`: the posts rendered from each notebook path. */
    var notebookRender: map<string, set<string>>

    constructor ()
      ensures notebookMetadata == map[] && notebookRender == map[]
    {
      notebookMetadata := map[];
      notebookRender := map[];
    }

    /** The registry next to the disk it watches. */
    function Registry(fs: FileSystem): State
      reads this, fs
    {
      State(fs.files, notebookMetadata, notebookRender)
    }

    /** `delete_notebook_md`: unlinks, one at a time, the tracked posts that exist. */
    method DeleteNotebookMd(fs: FileSystem, src: string)
      modifies this, fs
      ensures Registry(fs) == DeleteStep(old(Registry(fs)), src)
    {
      var tracked := Tracked(notebookRender, src);
      notebookRender := notebookRender[src := tracked];
      var remaining := tracked;
      while remaining != {}
        invariant remaining <= tracked
        invariant notebookRender == old(notebookRender)[src := tracked]
        invariant notebookMetadata == old(notebookMetadata)
        invariant fs.files == map p | p in old(fs.files) && p !in tracked - remaining :: old(fs.files)[p]
        decreases remaining
      {
        var path :| path in remaining;
        if path in fs.files {
          fs.files := fs.files - {path};
        }
        remaining := remaining - {path};
      }
    }

    /** `update_notebook_metadata_registry`. */
    method UpdateNotebookMetadataRegistry(fs: FileSystem, src: string) returns (r: Result<(), Error>)
      modifies this
      ensures notebookRender == old(notebookRender)
      ensures r.Success? <==> RegistryRead(fs.files, old(notebookMetadata), src).Success?
      ensures r.Success? ==> notebookMetadata == RegistryRead(fs.files, old(notebookMetadata), src).value
      ensures r.Failure? ==> notebookMetadata == old(notebookMetadata) && r.error == RegistryRead(fs.files, old(notebookMetadata), src).error
    {
      var read := ReadMetadata(fs.files, src);
      if read.Success? {
        notebookMetadata := notebookMetadata[src := read.value];
        r := Success(());
      } else if read.error.JsonDecodeError? {
        r := Success(());
      } else {
        r := Failure(read.error);
      }
    }

    /** `process`: returns the exception it caught and printed, if any. */
    method Process(fs: FileSystem, src: string, env: Env) returns (logged: Option<Error>)
      requires ValidDate(env.today)
      modifies this, fs
      ensures Handled(Registry(fs), logged) == ProcessStep(old(Registry(fs)), src, WriterOf(env))
    {
      if IsProvisional(src) {
        return None;
      }
      DeleteNotebookMd(fs, src);
      var registered := UpdateNotebookMetadataRegistry(fs, src);
      if registered.Failure? {
        return Some(registered.error);
      }
      var renderTo := RenderToField(notebookMetadata, src);
      if renderTo.Failure? {
        return Some(renderTo.error);
      }
      assert WriterOf(env)(fs.files, src, renderTo.value) == WriteHugo(fs.files, src, renderTo.value, env);
      logged := WriteAndTrack(fs, src, renderTo.value, env);
    }

    /** The last part of `process`: the post is written, then added to the tracked set. */
    method WriteAndTrack(fs: FileSystem, src: string, renderTo: string, env: Env) returns (logged: Option<Error>)
      requires ValidDate(env.today)
      requires src in notebookRender
      modifies this, fs
      ensures notebookMetadata == old(notebookMetadata)
      ensures var w := WriteHugo(old(fs.files), src, renderTo, env);
        fs.files == w.files
        && (w.result.Failure? ==> logged == Some(w.result.error) && notebookRender == old(notebookRender))
        && (w.result.Success? ==> logged == None && notebookRender == old(notebookRender)[src := old(notebookRender)[src] + {w.result.value}])
    {
      var rendered := WriteHugoFormattedNbToMd(fs, src, renderTo, env);
      if rendered.Failure? {
        return Some(rendered.error);
      }
      notebookRender := notebookRender[src := notebookRender[src] + {rendered.value}];
      logged := None;
    }

    method OnModified(fs: FileSystem, src: string, env: Env) returns (logged: Option<Error>)
      requires ValidDate(env.today)
      modifies this, fs
      ensures Handled(Registry(fs), logged) == ProcessStep(old(Registry(fs)), src, WriterOf(env))
    {
      logged := Process(fs, src, env);
    }

    /** `on_created`: a `Failure` is the exception that leaves the handler. */
    method OnCreated(fs: FileSystem, src: string, env: Env) returns (r: Result<Option<Error>, Error>)
      requires ValidDate(env.today)
      modifies this, fs
      ensures r.Failure? <==> CreatedStep(old(Registry(fs)), src, env, WriterOf(env)).Failure?
      ensures r.Failure? ==> r.error == CreatedStep(old(Registry(fs)), src, env, WriterOf(env)).error
      ensures r.Success? ==> Handled(Registry(fs), r.value) == CreatedStep(old(Registry(fs)), src, env, WriterOf(env)).value
      ensures Registry(fs) == HandledOrRaised(CreatedStep(old(Registry(fs)), src, env, WriterOf(env)), old(Registry(fs)))
    {
      var updated := UpdateNotebookMetadata(fs, src, NoOverrides, env.today);
      if updated.Failure? {
        return Failure(updated.error);
      }
      var logged := Process(fs, src, env);
      r := Success(logged);
    }

    method OnDeleted(fs: FileSystem, src: string)
      modifies this, fs
      ensures Registry(fs) == DeleteStep(old(Registry(fs)), src)
    {
      DeleteNotebookMd(fs, src);
    }
  }
}
