/** Front-matter defaulting: how `update_notebook_metadata` turns a notebook's metadata block
    and the caller's overrides into the canonical `front-matter` and `hugo-jupyter` entries. */
module FrontMatter {
  import opened Wrappers
  import opened Text
  import opened Notebook
  import opened Dates

  /** The keyword arguments `title`, `subtitle`, `date`, `slug` and `render_to`; the empty
      string stands for `None` (both are falsy in Python's `or`). */
  datatype Overrides = Overrides(title: string, subtitle: string, date: string, slug: string, renderTo: string)

  const NoOverrides := Overrides("", "", "", "", "")
  const DefaultSubtitle := "Generic subtitle"
  const DefaultRenderTo := "content/post/"

  /** Whether any of the four front-matter fields falls through to the stored value, so that
      `old_front_matter.get(...)` is evaluated at all. */
  predicate ReadsStoredFrontMatter(args: Overrides) {
    args.title == [] || args.subtitle == [] || args.date == [] || args.slug == []
  }

  /** The text `v.get(key)` yields for an entry `v` that is absent (`{}`) or an object;
      the empty string when the key is missing. */
  function StoredText(v: Option<Value>, key: string): string {
    if v.Some? && v.value.Object? && key in v.value.fields then v.value.fields[key] else ""
  }

  /** Python's `a or b or c` on strings. */
  function Pick(a: string, b: string, c: string): (r: string)
    ensures a != [] ==> r == a
    ensures a == [] && b != [] ==> r == b
    ensures a == [] && b == [] ==> r == c
    ensures r != [] <==> a != [] || b != [] || c != []
  {
    if a != [] then a else if b != [] then b else c
  }

  /** `explicit or entry.get(key) or default`, evaluated lazily as Python does: the lookup in
      `entry` happens only when `explicit` is empty, and fails with an AttributeError when the
      entry is not an object. */
  function Resolve(explicit: string, entry: Option<Value>, owner: string, key: string, default: string): (r: Result<string, Error>)
    ensures r.Failure? <==> explicit == [] && entry == Some(Other)
    ensures r.Failure? ==> r.error == NotADict(owner)
    ensures r.Success? ==> r.value == Pick(explicit, StoredText(entry, key), default)
  {
    if explicit != [] then Success(explicit)
    else
      match entry
      case None => Success(default)
      case Some(Other) => Failure(NotADict(owner))
      case Some(Object(f)) =>
        var stored := if key in f then f[key] else "";
        Success(if stored != [] then stored else default)
  }

  /** The front-matter object that `update_notebook_metadata` writes, as a reference definition:
      each field is the first non-empty of override, stored value and default, the default slug
      being the slugified resolved title. */
  function FrontMatterFields(stored: Option<Value>, stem: string, args: Overrides, today: Date): (f: map<string, string>)
    requires ValidDate(today)
    ensures f.Keys == {"title", "subtitle", "date", "slug"}
    ensures f["title"] == Pick(args.title, StoredText(stored, "title"), stem)
    ensures f["subtitle"] == Pick(args.subtitle, StoredText(stored, "subtitle"), DefaultSubtitle)
    ensures f["date"] == Pick(args.date, StoredText(stored, "date"), FormatIso(today))
    ensures f["slug"] == Pick(args.slug, StoredText(stored, "slug"), Slugify(f["title"]))
    ensures f["subtitle"] != [] && f["date"] != []
    ensures f["title"] != [] <==> args.title != [] || StoredText(stored, "title") != [] || stem != []
  {
    var title := Pick(args.title, StoredText(stored, "title"), stem);
    map["title" := title,
        "subtitle" := Pick(args.subtitle, StoredText(stored, "subtitle"), DefaultSubtitle),
        "date" := Pick(args.date, StoredText(stored, "date"), FormatIso(today)),
        "slug" := Pick(args.slug, StoredText(stored, "slug"), Slugify(title))]
  }

  /** The `hugo-jupyter` object that `update_notebook_metadata` writes. */
  function HugoJupyterFields(stored: Option<Value>, args: Overrides): (f: map<string, string>)
    ensures f.Keys == {"render-to"}
    ensures f["render-to"] != []
    ensures args.renderTo != [] ==> f["render-to"] == args.renderTo
    ensures args.renderTo == [] && StoredText(stored, "render-to") != [] ==> f["render-to"] == StoredText(stored, "render-to")
    ensures args.renderTo == [] && StoredText(stored, "render-to") == [] ==> f["render-to"] == DefaultRenderTo
  {
    map["render-to" := Pick(args.renderTo, StoredText(stored, "render-to"), DefaultRenderTo)]
  }

  /** The metadata block `update_notebook_metadata` writes back for a notebook with metadata
      `md` (`None` when the notebook has no `metadata` key) saved under a path with stem `stem`,
      in the order the code evaluates: the four fields (which may fail on a front matter that
      is not an object), the `notebook_data['metadata']` index, then the render-to field
      (which may fail on a `hugo-jupyter` entry that is not an object). */
  function UpdateMetadata(md: Option<Metadata>, stem: string, args: Overrides, today: Date): (r: Result<Metadata, Error>)
    requires ValidDate(today)
    ensures r.Success? <==>
      md.Some?
      && !(ReadsStoredFrontMatter(args) && Get(md, FrontMatterKey) == Some(Other))
      && !(args.renderTo == [] && Get(md, HugoJupyterKey) == Some(Other))
    ensures r.Failure? ==> (r.error ==
      if ReadsStoredFrontMatter(args) && Get(md, FrontMatterKey) == Some(Other) then NotADict(FrontMatterKey)
      else if md.None? then KeyError("metadata")
      else NotADict(HugoJupyterKey))
    ensures r.Success? ==> r.value.Keys == md.value.Keys + {FrontMatterKey, HugoJupyterKey}
    ensures r.Success? ==> forall k :: k in md.value && k != FrontMatterKey && k != HugoJupyterKey ==> r.value[k] == md.value[k]
    ensures r.Success? ==> r.value[FrontMatterKey] == Object(FrontMatterFields(Get(md, FrontMatterKey), stem, args, today))
    ensures r.Success? ==> r.value[HugoJupyterKey] == Object(HugoJupyterFields(Get(md, HugoJupyterKey), args))
  {
    var fm := Get(md, FrontMatterKey);
    var title :- Resolve(args.title, fm, FrontMatterKey, "title", stem);
    var subtitle :- Resolve(args.subtitle, fm, FrontMatterKey, "subtitle", DefaultSubtitle);
    var date :- Resolve(args.date, fm, FrontMatterKey, "date", FormatIso(today));
    var slug :- Resolve(args.slug, fm, FrontMatterKey, "slug", Slugify(title));
    if md.None? then Failure(KeyError("metadata"))
    else
      var withFrontMatter := md.value[FrontMatterKey := Object(map["title" := title, "subtitle" := subtitle, "date" := date, "slug" := slug])];
      var renderTo :- Resolve(args.renderTo, Get(Some(withFrontMatter), HugoJupyterKey), HugoJupyterKey, "render-to", DefaultRenderTo);
      Success(withFrontMatter[HugoJupyterKey := Object(map["render-to" := renderTo])])
  }

  /** With no override and nothing stored, the title is the file stem, the subtitle the
      placeholder, the date today's and the slug the slugified stem. */
  lemma DefaultsFromStem(md: Metadata, stem: string, today: Date)
    requires ValidDate(today)
    requires FrontMatterKey !in md && HugoJupyterKey !in md
    ensures UpdateMetadata(Some(md), stem, NoOverrides, today).Success?
    ensures var m := UpdateMetadata(Some(md), stem, NoOverrides, today).value;
      m[FrontMatterKey] == Object(map["title" := stem, "subtitle" := DefaultSubtitle,
                                      "date" := FormatIso(today), "slug" := Slugify(stem)])
      && m[HugoJupyterKey] == Object(map["render-to" := DefaultRenderTo])
  {
    var f := FrontMatterFields(None, stem, NoOverrides, today);
    assert f.Keys == {"title", "subtitle", "date", "slug"};
    assert f == map["title" := stem, "subtitle" := DefaultSubtitle, "date" := FormatIso(today), "slug" := Slugify(stem)];
  }

  /** The example `{"front-matter": {"title": "Hello World", "slug": "", "date": ""}}`: the
      stored title is kept, the empty slug and date fall through to their defaults. */
  lemma HelloWorldExample(stem: string, today: Date)
    requires ValidDate(today)
    ensures var md := map[FrontMatterKey := Object(map["title" := "Hello World", "slug" := "", "date" := ""])];
      var r := UpdateMetadata(Some(md), stem, NoOverrides, today);
      r.Success?
      && r.value[FrontMatterKey] == Object(map["title" := "Hello World", "subtitle" := DefaultSubtitle,
                                                "date" := FormatIso(today), "slug" := "hello-world"])
      && r.value[HugoJupyterKey] == Object(map["render-to" := DefaultRenderTo])
  {
    var stored := Some(Object(map["title" := "Hello World", "slug" := "", "date" := ""]));
    SlugifyHelloWorld();
    var f := FrontMatterFields(stored, stem, NoOverrides, today);
    assert f["title"] == "Hello World";
    assert f == map["title" := "Hello World", "subtitle" := DefaultSubtitle, "date" := FormatIso(today), "slug" := "hello-world"];
  }

  /** Overrides that agree with `args` wherever they are given. */
  predicate Agrees(later: Overrides, args: Overrides) {
    (later.title == [] || later.title == args.title)
    && (later.subtitle == [] || later.subtitle == args.subtitle)
    && (later.date == [] || later.date == args.date)
    && (later.slug == [] || later.slug == args.slug)
    && (later.renderTo == [] || later.renderTo == args.renderTo)
  }

  /** `Pick` is stable once its result is fed back as the stored value. */
  lemma PickAgain(later: string, a: string, b: string, c: string)
    requires later == [] || later == a
    ensures Pick(later, Pick(a, b, c), c) == Pick(a, b, c)
  {
  }

  /** The front-matter object written once is written again unchanged: its non-empty
      fields are now the stored values, and overrides that agree change nothing. */
  lemma FrontMatterFieldsAgain(stored: Option<Value>, stem: string, args: Overrides, later: Overrides, today: Date, laterDay: Date)
    requires ValidDate(today) && ValidDate(laterDay)
    requires Agrees(later, args)
    ensures var f := FrontMatterFields(stored, stem, args, today);
      FrontMatterFields(Some(Object(f)), stem, later, laterDay) == f
  {
    var f := FrontMatterFields(stored, stem, args, today);
    var g := FrontMatterFields(Some(Object(f)), stem, later, laterDay);
    PickAgain(later.title, args.title, StoredText(stored, "title"), stem);
    assert g["title"] == f["title"];
    assert g["subtitle"] == f["subtitle"];
    assert g["date"] == f["date"];
    PickAgain(later.slug, args.slug, StoredText(stored, "slug"), Slugify(f["title"]));
    assert g["slug"] == f["slug"];
  }

  /** Likewise for the `hugo-jupyter` object. */
  lemma HugoJupyterFieldsAgain(stored: Option<Value>, args: Overrides, later: Overrides)
    requires Agrees(later, args)
    ensures var h := HugoJupyterFields(stored, args);
      HugoJupyterFields(Some(Object(h)), later) == h
  {
  }

  /** Updating a notebook a second time — on any day, with no overrides or the same ones —
      leaves the metadata exactly as the first update wrote it. */
  lemma UpdateIdempotent(md: Option<Metadata>, stem: string, args: Overrides, later: Overrides, today: Date, laterDay: Date)
    requires ValidDate(today) && ValidDate(laterDay)
    requires Agrees(later, args)
    requires UpdateMetadata(md, stem, args, today).Success?
    ensures var m := UpdateMetadata(md, stem, args, today).value;
      UpdateMetadata(Some(m), stem, later, laterDay) == Success(m)
  {
    var m := UpdateMetadata(md, stem, args, today).value;
    var f := FrontMatterFields(Get(md, FrontMatterKey), stem, args, today);
    var h := HugoJupyterFields(Get(md, HugoJupyterKey), args);
    FrontMatterFieldsAgain(Get(md, FrontMatterKey), stem, args, later, today, laterDay);
    HugoJupyterFieldsAgain(Get(md, HugoJupyterKey), args, later);
    assert Get(Some(m), FrontMatterKey) == Some(Object(f));
    assert Get(Some(m), HugoJupyterKey) == Some(Object(h));
    var r2 := UpdateMetadata(Some(m), stem, later, laterDay);
    assert r2.Success?;
    var m2 := r2.value;
    assert m2[FrontMatterKey] == m[FrontMatterKey] && m2[HugoJupyterKey] == m[HugoJupyterKey];
    assert m2.Keys == m.Keys;
    assert forall k :: k in m ==> m2[k] == m[k];
    assert m2 == m;
  }
}
