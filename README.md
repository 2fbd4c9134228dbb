# Jupyter notebooks to Hugo posts, modelled in Dafny

The tool keeps a directory of Jupyter notebooks rendered as Hugo blog posts. This model
covers the logic of its two entry points, `run.py` and the older `fabfile.py`:

- **Front-matter defaulting** (`update_notebook_metadata`). Each of title, subtitle, date
  and slug is the first non-empty of the explicit argument, the stored value and a default:
  the file stem, `Generic subtitle`, today as `YYYY-MM-DD`, and the slugified title. The
  result is written back to the notebook together with a `hugo-jupyter.render-to` field.
- **Post assembly** (`notebook_to_markdown`, `convert_notebook_to_hugo_markdown`). A
  `---` header holding the serialised front matter, the `<!--more-->` cut, then the
  exported body. In run.py the body also goes through `doctor`, two regex rewrites of
  newline runs, each modelled as a left-to-right scanner.
- **Cell preprocessing** (`CustomPreprocessor` in both files). Blank code cells are popped
  while the cell list is being enumerated. Each file uses its own blankness test. A pop
  makes the loop skip the cell that slides into the popped slot.
- **Output path** (`write_hugo_formatted_nb_to_md`, `write_jupyter_to_md`). run.py writes
  to `<render-to>/<slug>.md`, reading slug and render-to from the notebook *before* it is
  updated. fabfile.py always writes to `content/post/<stem>.md`.
- **Watcher registry** (`NotebookHandler` in run.py). The last metadata read per notebook
  and the set of posts rendered per notebook. The handlers for creation, modification and
  deletion unlink stale posts, refresh the registry, render and track the new post.
  fabfile.py's handler keeps no state.

The disk is a map from path to entry: a parsed notebook, or text that is not a notebook.
Python exceptions are `Result` failures carrying the exception's kind. The clock reading,
the nbconvert exporter and `json.dumps` are parameters (`Render.Env`).

Modules:
- `Text` (str and PurePath operations).
- `Notebook` (documents, disk, errors).
- `Dates` (`strftime('%Y-%m-%d')`).
- `FrontMatter` (the `or` chains).
- `Cells` (the preprocessor).
- `Markdown` (`doctor` and the header).
- `Render` (run.py's pipeline).
- `Watcher` (run.py's handler).
- `Fab` (fabfile.py).

Four behaviours of the code that the model keeps as written:
- A whitespace-only code cell is not dropped by run.py. It is kept and stripped to an empty
  source (`Cells.WhitespaceOnlyCell`).
- The front-matter assertion of `notebook_to_markdown` can never fire, because the update
  just before it always writes a front matter (`Render.ConvertFailsOnlyInUpdate`). A
  notebook saved without front matter still gets no post, but the failure is the
  `KeyError` of run.py:260 on the metadata read beforehand, and the notebook has been
  rewritten in the meantime (`Render.WriteWithoutPriorFrontMatter`,
  `Watcher.FirstSaveWithoutFrontMatter`).
- The tracked set of a notebook is never cleared. A post unlinked when the notebook is
  re-rendered or deleted stays in the set (`Watcher.ProcessTrackedGrow`). So the set grows
  beyond the posts on disk. Only the latest post is guaranteed to be on disk
  (`Watcher.ProcessLeavesNoStalePost`).
- The filter of `update_notebooks_metadata` tests the whole path `notebooks/<name>`, so a
  hidden notebook is not excluded (`Render.HiddenSelected`).

## Model

| member | source | states |
|---|---|---|
| Text.Strip | run.py:202 | `str.strip()`: the result is the input minus maximal leading and trailing whitespace (Python's `isspace` class); empty exactly when the input is all whitespace |
| Text.StripIdempotent | run.py:202 | stripping an already stripped source changes nothing |
| Text.Slugify | run.py:296 | same length as the title; no space and no capital letter; every non-space character is the lower-cased title character and every space is `-` |
| Text.SlugifyIdempotent | run.py:296 | slugifying a slug gives the same slug |
| Text.SlugifyHelloWorld | run.py:296 | "Hello World" slugifies to "hello-world" |
| Text.Lower | run.py:296 | `str.lower()` on ASCII: same length, no capital letters, capitals shifted to their lower-case letter, every other character kept |
| Text.Contains | run.py:85 | `sub in s`; it holds exactly when `sub` starts at some position (ContainsAt, ContainsSomewhere) |
| Text.ContainsAt | run.py:85 | `sub` starting at any position of `s` makes `sub in s` true |
| Text.ContainsSomewhere | run.py:85 | `sub in s` only if `sub` starts at some position of `s` |
| Text.ContainsSkip | run.py:85 | a pattern whose first character is absent from a prefix is in prefix + rest exactly when it is in the rest |
| Text.Name | run.py:293 | `PurePath.name`: a suffix of the path that holds no `/` |
| Text.Stem | run.py:293 | `PurePath.stem`: holds no `/` and is a prefix of the name |
| Text.NameAfterSlash | run.py:293 | the name of `<dir>/<rest>` is `<rest>` whenever `<rest>` has no `/` and the directory ends in one |
| Text.StemOfIpynb | run.py:293 | a name `<base>.ipynb` with a non-empty base has stem `<base>` |
| Text.StemOfNotebook | fabfile.py:112 | the stem of `<dir>/<base>.ipynb` is `<base>` |
| Text.EnsureTrailingSlash | run.py:263-264 | the result ends in `/`; it equals the input exactly when the input already ends in `/`, otherwise it is the input plus one `/` |
| Text.EnsureTrailingSlashIdempotent | run.py:263-264 | normalising twice is normalising once |
| Dates.FormatIso | run.py:295 | `strftime('%Y-%m-%d')` gives ten characters, dashes at positions 4 and 7, digits elsewhere |
| Dates.ParseFormatIso | run.py:295 | the formatted date reads back as the date it came from |
| Notebook.ReadDoc | run.py:289 | reading succeeds exactly on a notebook entry and returns its document; otherwise the file is missing or not JSON |
| Notebook.ReadMetadata | run.py:258 | `json.loads(...)['metadata']`: succeeds exactly when the notebook has a metadata block, otherwise the read error or `KeyError('metadata')` |
| Notebook.Index | run.py:260 | `d[key]` succeeds exactly on an object holding the key and gives its value |
| FrontMatter.Pick | run.py:293-296 | `a or b or c` on strings: the first non-empty argument, or the last one when all before it are empty |
| FrontMatter.Resolve | run.py:290-296 | `explicit or entry.get(key) or default` is evaluated lazily: it fails with an AttributeError exactly when the explicit value is empty and the entry is not an object; otherwise it gives the first non-empty value |
| FrontMatter.FrontMatterFields | run.py:293-303 | the front matter has exactly the keys title, subtitle, date and slug; each is the first non-empty of override, stored value and default; the slug defaults to the slugified resolved title; subtitle and date are never empty |
| FrontMatter.HugoJupyterFields | run.py:309-312 | `hugo-jupyter` is exactly `{'render-to': override or stored or 'content/post/'}`, never empty |
| FrontMatter.UpdateMetadata | run.py:288-313 | success exactly when there is a metadata block and no needed lookup hits a non-object; the error in the code's evaluation order; keys are the old keys plus the two entries; every other key unchanged; the two entries are the reference objects above |
| FrontMatter.FrontMatterFieldsAgain | run.py:293-303 | the front-matter object once written is written again unchanged, on any later day and with agreeing overrides |
| FrontMatter.HugoJupyterFieldsAgain | run.py:309-312 | the `hugo-jupyter` object once written is written again unchanged with agreeing overrides |
| FrontMatter.DefaultsFromStem | run.py:293-296 | with nothing given or stored: title = stem, subtitle = `Generic subtitle`, date = today, slug = slugified stem, render-to = `content/post/` |
| FrontMatter.HelloWorldExample | run.py:293-296 | the stored `{"title": "Hello World", "slug": "", "date": ""}` keeps its title and gets slug `hello-world` and today's date |
| FrontMatter.UpdateIdempotent | run.py:290-313 | updating again, on any later day, with no overrides or the same ones, leaves the metadata as the first update wrote it |
| Cells.PoppedOnlyIfRemoved | run.py:190-194 | only a cell meeting the removal test is popped; a cell is skipped exactly when the previous one was popped; a visited cell fails the removal test |
| Cells.BlankRun | run.py:190-191 | run.py's removal test: a code cell with empty source |
| Cells.BlankFab | fabfile.py:74 | fabfile.py's removal test: a code cell with no outputs or an empty source |
| Cells.Tidy | run.py:197-202 | `preprocess_cell`: a code cell's source is stripped, other cells are unchanged; WhitespaceOnlyCell is its consequence for blank-looking cells |
| Cells.Fates | run.py:190-194 | one fate per cell under enumerate-and-pop; FatesFollowRule and FateRuleUnique characterise it |
| Cells.Apply | run.py:190-194 | the list left by the fates: popped cells gone, visited ones tidied, skipped ones untouched, in order (PreprocessedKeepsOrder) |
| Cells.Preprocessed | run.py:186-195 | the cells `preprocess` leaves; its properties are PreprocessedLength, PreprocessedKeepsOrder and NonCodeCellsSurvive |
| Cells.FatesFollowRule | run.py:190-194 | every cell's fate follows the enumerate-and-pop rule |
| Cells.FateRuleUnique | run.py:190-194 | that rule determines the fates |
| Cells.PreprocessedLength | run.py:190-195 | the cell list shrinks by exactly the number of popped cells and never grows |
| Cells.PreprocessedKeepsOrder | run.py:190-204 | the surviving cells are the non-popped input cells in their original order; visited ones are tidied (code source stripped), skipped ones are untouched |
| Cells.NonCodeCellsSurvive | fabfile.py:73-87 | with either file's removal test, every non-code cell survives, unchanged and in order |
| Cells.PreprocessedStep | run.py:190-204 | at the head of the list: a removed cell is dropped and its successor kept as is; a kept cell is tidied |
| Cells.Preprocess | run.py:186-195 | the in-place loop leaves exactly the preprocessed cell list and keeps the metadata |
| Cells.VisitCell | run.py:190-194 | one turn of the `enumerate` loop keeps the loop invariant: a blank code cell is popped (so the next cell is never visited), any other cell is tidied, and the list never grows |
| Cells.RunKeepsBlankAfterBlank | run.py:190-192 | two blank code cells in a row leave the second behind |
| Cells.WhitespaceOnlyCell | run.py:191-202 | in run.py a whitespace-only code cell is kept and stripped to empty; fabfile.py drops it when it has no outputs |
| Markdown.DoctorKeepsVisible | run.py:207-215 | `doctor` only inserts or deletes `\n`: the other characters stay, in order |
| Markdown.Doctor | run.py:207-215 | `doctor`: the first rewrite, then the second; its properties are DoctorKeepsVisible and DoctorNoNewline |
| Markdown.PostCodePass | run.py:209-212 | the scanner for `re.sub(r'(```)(\n+)', r'\1\n\n', s)`; its properties are PostCodePassVisible, PostCodePassFencesNormal and PostCodePassIdempotent |
| Markdown.PostCodePassVisible | run.py:212 | the first rewrite keeps every non-newline character, in order |
| Markdown.InterOutputMatch | run.py:210-213 | a match of the second pattern spans at least ten characters, and its replacement is no longer than the match and keeps its non-newline characters |
| Markdown.InterOutputPass | run.py:210-213 | the non-overlapping left-to-right scanner for the second rewrite; its properties are InterOutputPassVisible and InterOutputPassNoNewline |
| Markdown.InterOutputPassVisible | run.py:210-213 | the second rewrite keeps the non-newline characters and never lengthens the text |
| Markdown.DoctorNoNewline | run.py:207-215 | text with no `\n` is returned unchanged |
| Markdown.PostCodePassFencesNormal | run.py:209-212 | after the first pass, every ``` followed by a newline is followed by exactly two |
| Markdown.PostCodePassIdempotent | run.py:212 | running the first pass again changes nothing |
| Markdown.Assemble | run.py:244 | the post starts with `---\n`, ends with the body, and its length is header plus marker plus body |
| Markdown.SplitAssemble | run.py:244 | a header with no line starting with `-` is recovered from the post, together with the body |
| Render.UpdateNotebook | run.py:288-316 | success exactly when the notebook reads and its metadata updates; on failure the disk is unchanged; on success only the notebook's entry changes, to the updated metadata with the same cells |
| Render.UpdateNotebookMetadata | run.py:276-321 | the in-place edit of the metadata dictionary has exactly the effect of UpdateNotebook |
| Render.RenderedMarkdown | run.py:231-244 | succeeds exactly when the metadata holds a front-matter object; fails with the assertion when it is absent; the post starts with the header; its body keeps the export's visible text; the header and doctored body split back out |
| Render.ConvertFailsOnlyInUpdate | run.py:229-233 | conversion fails exactly when the update fails and leaves the update's disk; the assertion never fires |
| Render.ConvertContent | run.py:229-244 | the post's header is the updated front matter and its body the doctored export of the preprocessed cells |
| Render.Convert | run.py:218-246 | conversion adds no file and changes no file other than the notebook itself |
| Render.NotebookToMarkdown | run.py:218-246 | the method has exactly the effect of Convert |
| Render.OutputTarget | run.py:260-266 | success conditions of the two lookups; `KeyError('front-matter')` when absent; the path is the render-to (override, stored, default) with one `/` ensured, then slug and `.md` |
| Render.WriteHugo | run.py:257-271 | no file disappears; on success the target is the one OutputTarget derives from the metadata as read before the update, and the disk is the converted disk plus the post as text; every other file except the notebook is unchanged |
| Render.StaleEmptySlug | run.py:258-266 | a notebook whose stored slug is empty (edited on disk, then saved) is written to `<render-to>/.md`: the target comes from the metadata read before the update |
| Render.WriteHugoFormattedNbToMd | run.py:249-273 | the method has exactly the effect of WriteHugo |
| Render.UpdateSettles | run.py:290-316 | after an update, the next update (on any day) changes nothing |
| Render.WriteSettled | run.py:258-271 | for an updated notebook, the post goes to `<render-to>/<slug>.md` with one `/`, holding the converted text, and nothing else changes |
| Render.WriteWithoutPriorFrontMatter | run.py:258-260 | a notebook without front matter beforehand gets `KeyError('front-matter')` and no post, but it has been rewritten by the update |
| Render.HiddenSelected | run.py:85 | `notebooks/.draft.ipynb` passes the filter, which tests the whole path |
| Render.UntitledNotSelected | run.py:85 | `notebooks/Untitled1.ipynb` is filtered out, whatever its case |
| Render.HelloSelected | run.py:85 | `notebooks/hello.ipynb` passes the filter |
| Render.SelectedNotebook | run.py:82-85 | `notebooks/<name>` passes the filter exactly when `<name>` does not contain `untitled` in any case; the hidden-file test never rejects a globbed path |
| Render.SelectedForRender | run.py:85 | the filter `not str(notebook).startswith('.') and 'untitled' not in str(notebook).lower()`; its meaning for globbed paths is SelectedNotebook |
| Render.SelectedPaths | run.py:82-85 | the selected paths in glob order: each passes the filter and is one of the globbed paths |
| Render.RenderNotebooks | run.py:81-95 | the loop over the globbed notebooks: filter, update, write, stop at the first exception; it has exactly the effect of RenderAll (whose properties are RenderAllPosts, RenderAllTargets and RenderAllSkipsUnselected) and returns the posts written |
| Render.RenderAll | run.py:81-95 | the batch as a function of the disk: selected notebooks in glob order, update then write, stop at the first exception; its properties are RenderAllPosts, RenderAllTargets and RenderAllSkipsUnselected |
| Render.RenderAllPosts | run.py:81-95 | a successful batch lists one post per selected notebook, each a `.md` file on disk as text afterwards; no text file is turned into anything else |
| Render.RenderAllTargets | run.py:83-95 | for paths as `glob('*.ipynb')` yields them (distinct, each ending in `.ipynb`), a successful batch lists exactly one post per selected notebook, and the i-th post is the i-th selected notebook's own `<render-to>/<slug>.md`, resolved from that notebook's metadata as it was before the batch (PlannedPost) |
| Render.HeadKeepsLater | run.py:93-95 | updating and writing the first notebook leaves every later notebook on disk as it was, so its planned post is unchanged: the update rewrites only its own notebook and the post is a `.md` path, never a notebook |
| Render.PlannedCons | run.py:93-95 | the head's post followed by the later notebooks' planned posts is the list of planned posts of the whole selection |
| Render.PlannedPostKept | run.py:93-95 | a notebook that neither the update nor the write touches keeps its planned post |
| Render.GlobbedTail | run.py:83 | a later globbed path differs from the first and ends in `.ipynb` |
| Render.MdIsNotIpynb | run.py:83 | a `.md` post path is never a `.ipynb` notebook path |
| Render.RenderAllSkipsUnselected | run.py:85 | a notebook the filter rejects is skipped: the batch does exactly what it does on the selected paths alone |
| Render.WriteHugoKeepsText | run.py:257-271 | a successful write leaves its `.md` post on disk as text and keeps every text file a text file |
| Render.UpdateKeepsText | run.py:288-316 | a successful update rewrites only the notebook and keeps every text file |
| Render.RenderNotebook | run.py:83-95 | one notebook of the batch: an error stops the batch with the disk as it is; otherwise the batch is this notebook's posts (none if it is filtered out) followed by the rest |
| Render.UpdateThenWrite | run.py:94-95 | after the batch update, the post goes to the resolved render-to plus the resolved slug plus `.md` |
| Render.HelloWorldRendered | run.py:94-95 | the Hello World notebook, under any name, renders to `content/post/hello-world.md` |
| Watcher.WriteHugoWritesOnlyPost | run.py:257-271 | run.py's writer changes only the notebook and the post it reports, which it creates as text |
| Watcher.DeleteStep | run.py:371-376 | the existing tracked posts are unlinked and nothing else; the defaultdict records the notebook; metadata unchanged |
| Watcher.RegistryRead | run.py:378-383 | a non-JSON file is skipped; a missing file or missing `metadata` raises; otherwise the notebook's metadata is recorded |
| Watcher.RenderToField | run.py:385-391 | an unregistered notebook gives `None` (empty); a `hugo-jupyter` entry that is not an object raises; otherwise the stored render-to |
| Watcher.ProcessStep | run.py:336-358 | a provisional (`untitled` in any case, `.~`) path changes nothing and logs nothing; otherwise the stale posts are unlinked first, a failing registry read is logged on that state, and a successful one becomes the new registry |
| Watcher.IsProvisional | run.py:341 | the skip test of `process`: `untitled` in the lower-cased path, or `.~` in the path |
| Watcher.CreatedStep | run.py:363-366 | the update of `on_created` raises out of the handler exactly when it fails, with its error |
| Watcher.DeletedRemovesExactlyTracked | run.py:368-376 | deletion unlinks exactly the tracked posts that exist, and every other file stays as it was |
| Watcher.ProcessTrackedGrow | run.py:336-358 | processing never shrinks a tracked set and never drops a registry entry |
| Watcher.HandlersTrackedGrow | run.py:336-376 | no handler, whether or not an exception escapes, shrinks a tracked set |
| Watcher.ProcessLeavesNoStalePost | run.py:341-354 | nothing is logged exactly when a post is written; of the tracked posts, only the notebook and the new post can remain on disk; the new post is tracked with the old ones and exists as text |
| Watcher.FirstSaveWithoutFrontMatter | run.py:341-358 | saving a notebook without front matter logs `KeyError('front-matter')`, rewrites the notebook with the default front matter and tracks no post |
| Watcher.NotebookHandler.constructor | run.py:329-334 | both dictionaries start empty |
| Watcher.NotebookHandler.DeleteNotebookMd | run.py:371-376 | the unlink loop has exactly the effect of DeleteStep |
| Watcher.NotebookHandler.UpdateNotebookMetadataRegistry | run.py:378-383 | the registry method succeeds and records exactly as RegistryRead says, and touches no tracked set |
| Watcher.NotebookHandler.Process | run.py:336-358 | the handler method has exactly the effect and the log of ProcessStep with run.py's writer |
| Watcher.NotebookHandler.WriteAndTrack | run.py:352-354 | the write has the writer's effect; on success the post joins the tracked set, on failure the error is logged |
| Watcher.NotebookHandler.OnModified | run.py:360-361 | as Process |
| Watcher.NotebookHandler.OnCreated | run.py:363-366 | raises exactly as CreatedStep does; otherwise the effect and log of CreatedStep |
| Watcher.NotebookHandler.OnDeleted | run.py:368-369 | as DeleteStep |
| Fab.FabMarkdown | fabfile.py:90-106 | read errors pass through; no metadata is `KeyError`; absent front matter fails the assertion; a non-object entry fails; otherwise the post starts with the header, ends with the undoctored export of the preprocessed cells, and splits back into both |
| Fab.ConvertNotebookToHugoMarkdown | fabfile.py:90-106 | the method returns exactly FabMarkdown and changes no file |
| Fab.NoFrontMatterNoPost | fabfile.py:94 | a notebook without front matter fails with the assertion and no file is written or changed |
| Fab.FabTarget | fabfile.py:112 | the post path starts with `content/post/`, ends with `.md` and has no further `/` |
| Fab.FabWrite | fabfile.py:109-113 | success exactly when conversion succeeds; then the post at the stem-derived path is the converted text and nothing else changes; on failure the disk is unchanged |
| Fab.WriteJupyterToMd | fabfile.py:109-114 | the method has exactly the effect of FabWrite |
| Fab.TargetOfNotebook | fabfile.py:112 | `notebooks/<base>.ipynb` is written to `content/post/<base>.md` |
| Fab.TargetIgnoresMetadata | fabfile.py:112 | the post path does not depend on the notebook's metadata or cells |
| Fab.RewriteChangesNothing | fabfile.py:120-127 | converting does not touch the notebook, so rendering it a second time changes nothing |
| Fab.FabRenderAllTargets | fabfile.py:18-23 | a successful batch writes, in glob order and with no filter, the stem-derived post of every notebook; each post is on disk as text afterwards and no text file is turned into anything else |
| Fab.FabRenderAll | fabfile.py:18-23 | the fabfile batch as a function of the disk: every globbed notebook in order, no filter, stop at the first exception; its properties are FabRenderAllTargets |
| Fab.FabHead | fabfile.py:21-23 | the first write of a successful batch succeeded at the stem-derived target, left it on disk as text, and the rest follows it |
| Fab.RenderNotebooks | fabfile.py:18-23 | the loop has exactly the effect of FabRenderAll |
| Fab.NotebookHandler.Process | fabfile.py:120-121 | the handler has exactly the effect of FabWrite, and its exception escapes |
| Fab.NotebookHandler.OnModified | fabfile.py:123-124 | as Process |
| Fab.NotebookHandler.OnCreated | fabfile.py:126-127 | as Process: creation re-renders the same way |
| Fab.NotebookHandler.OnDeleted | fabfile.py:117-127 | deletion changes no file |

## Left out

- `notify`, `main`'s `chdir`, `serve` in both files, `observe_notebooks` and `publish`. These are process spawning, threads, watchdog's observer, a busy-wait loop and shell commands for git and hugo.
- The `jupyter trust` subprocess after the update (run.py:319) and every `print`.
- nbformat and nbconvert. `nbformat.read` is the parse of a notebook entry. The `MarkdownExporter` is a parameter from preprocessed cells to text. JSON that parses but is not a notebook object is treated like unparsable text.
- `json.dumps` formatting. It is a parameter; the header round trip holds for any serialisation with no line starting with `-`.
- `datetime.now()`. It is a date parameter with a four-digit year.
- Directories: `mkdir(parents=True)` and writes into missing directories. Every path is writable.
- Path normalisation by `pathlib`: collapsing `//`, an absolute or `/`-containing slug, and the `Path` objects kept in the tracked sets. Paths are plain strings.
- Values: metadata field values are strings or non-objects, so non-string titles and slugs are not modelled.
- Text.Lower: `str.lower()` lower-cases ASCII letters only, not the rest of Unicode.
- Watchdog's `*.ipynb` pattern filter and event delivery. The handlers are called with the source path directly.
- Watcher.ProcessLeavesNoStalePost: stated for any writer that changes only the notebook and the post it reports. `Watcher.WriteHugoWritesOnlyPost` shows run.py's writer is one. The class methods use run.py's writer itself.
- What becomes of an exception that escapes a handler. That is up to watchdog's observer thread, which is not part of this model; later events may go unhandled. Escaping is modelled as a `Failure`, and nothing is said about later events.
- Glob order. The batch commands take the list of notebook paths as given. `Render.RenderAllTargets` asks of that list only what `glob('*.ipynb')` guarantees: the paths are distinct and each ends in `.ipynb`.
