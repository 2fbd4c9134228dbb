/** The notebook document, its metadata block, and the files on disk that the tooling
    reads and writes. */
module Notebook {
  import opened Wrappers

  datatype CellKind = CodeCell | MarkdownCell | RawCell

  /** One notebook cell: its `cell_type`, its `source` text and, for code cells, its
      `outputs` (each output kept opaque, as its serialised text; other cells have none). */
  datatype Cell = Cell(kind: CellKind, source: string, outputs: seq<string>)

  /** A metadata value. The tooling only ever looks inside the `front-matter` and
      `hugo-jupyter` entries, whose fields are strings; every value that is not a JSON
      object (a string, a number, a list, null) is `Other`. */
  datatype Value = Object(fields: map<string, string>) | Other

  type Metadata = map<string, Value>

  /** A parsed `.ipynb` file: `metadata` is `None` when the top-level object has no
      `metadata` key. */
  datatype NotebookDoc = NotebookDoc(metadata: Option<Metadata>, cells: seq<Cell>)

  /** What a path on disk holds: a notebook, or text that is not a JSON notebook
      (a rendered markdown post, a half-written file). */
  datatype Entry = Notebook(doc: NotebookDoc) | Text(content: string)

  /** The Python exceptions the modelled code can raise. */
  datatype Error =
    | FileNotFound(path: string)      // read_text / open of a missing path
    | JsonDecodeError(path: string)   // json.loads / nbformat.read of a file that is not a notebook
    | KeyError(key: string)           // d[key] with key absent
    | NotADict(key: string)           // .get, [] or dict() applied to the value of key that is not an object
    | MissingFrontMatter              // the `assert 'front-matter' in notebook['metadata']`

  const FrontMatterKey := "front-matter"
  const HugoJupyterKey := "hugo-jupyter"

  /** The file system, as the set of paths that exist and what each holds. */
  class FileSystem {
    var files: map<string, Entry>

    constructor (initial: map<string, Entry>)
      ensures files == initial
    {
      files := initial;
    }
  }

  /** A notebook node as `nbformat.read` returns it; the preprocessor edits its cell list
      in place. */
  class NotebookNode {
    var metadata: Option<Metadata>
    var cells: seq<Cell>

    constructor (doc: NotebookDoc)
      ensures metadata == doc.metadata && cells == doc.cells
    {
      metadata := doc.metadata;
      cells := doc.cells;
    }
  }

  /** `json.loads(Path(path).read_text())`, or equally `nbformat.read(open(path))`. */
  function ReadDoc(files: map<string, Entry>, path: string): (r: Result<NotebookDoc, Error>)
    ensures r.Success? <==> path in files && files[path].Notebook?
    ensures r.Success? ==> r.value == files[path].doc
    ensures r.Failure? ==> r.error == (if path in files then JsonDecodeError(path) else FileNotFound(path))
  {
    if path !in files then Failure(FileNotFound(path))
    else match files[path]
      case Notebook(doc) => Success(doc)
      case Text(_) => Failure(JsonDecodeError(path))
  }

  /** `json.loads(Path(path).read_text())['metadata']`. */
  function ReadMetadata(files: map<string, Entry>, path: string): (r: Result<Metadata, Error>)
    ensures r.Success? <==> ReadDoc(files, path).Success? && ReadDoc(files, path).value.metadata.Some?
    ensures r.Success? ==> r.value == files[path].doc.metadata.value
    ensures ReadDoc(files, path).Success? && r.Failure? ==> r.error == KeyError("metadata")
  {
    var doc :- ReadDoc(files, path);
    if doc.metadata.None? then Failure(KeyError("metadata")) else Success(doc.metadata.value)
  }

  /** `metadata.get(key)` on an optional metadata block, `None` when absent. */
  function Get(md: Option<Metadata>, key: string): Option<Value> {
    if md.Some? && key in md.value then Some(md.value[key]) else None
  }

  /** `d[key]` for an object value `d` whose fields are strings. */
  function Index(v: Value, owner: string, key: string): (r: Result<string, Error>)
    ensures r.Success? <==> v.Object? && key in v.fields
    ensures r.Success? ==> r.value == v.fields[key]
  {
    match v
    case Other => Failure(NotADict(owner))
    case Object(f) => if key in f then Success(f[key]) else Failure(KeyError(key))
  }
}
