/**
 * The three tables of the relational schema: `WikiPage`, `InfoBoxField` and
 * `InfoBoxValue`. Ids stand for the generated UUID primary keys; the
 * foreign keys of a value row are the ids of its field and of its page.
 * `Valid` collects what the database itself enforces: unique primary keys,
 * a unique field name, and foreign keys that point at existing rows.
 */
module Models {
  import opened Wrappers
  import opened Seqs

  type Id = nat

  datatype WikiPage = WikiPage(id: Id, title: string, url: string, timestamp: nat)

  datatype InfoBoxField = InfoBoxField(id: Id, name: string)

  datatype InfoBoxValue = InfoBoxValue(id: Id, value: string, field: Id, page: Id)

  datatype Tables = Tables(pages: seq<WikiPage>, fields: seq<InfoBoxField>, values: seq<InfoBoxValue>)

  function PageId(p: WikiPage): Id { p.id }
  function FieldId(f: InfoBoxField): Id { f.id }
  function FieldName(f: InfoBoxField): string { f.name }
  function ValueId(r: InfoBoxValue): Id { r.id }

  predicate HasPage(pages: seq<WikiPage>, id: Id)
  {
    exists p :: p in pages && p.id == id
  }

  predicate HasField(fields: seq<InfoBoxField>, id: Id)
  {
    exists f :: f in fields && f.id == id
  }

  /** The field with id `id` is named `name`. */
  ghost predicate HasFieldNamed(fields: seq<InfoBoxField>, id: Id, name: string)
  {
    exists f :: f in fields && f.id == id && f.name == name
  }

  /** Every value row points at an existing field and an existing page. */
  ghost predicate ForeignKeys(t: Tables)
  {
    forall r :: r in t.values ==> HasField(t.fields, r.field) && HasPage(t.pages, r.page)
  }

  /** The constraints the schema declares and the database enforces. */
  ghost predicate Valid(t: Tables)
  {
    && UniqueBy(t.pages, PageId)
    && UniqueBy(t.fields, FieldId)
    && UniqueBy(t.fields, FieldName)
    && UniqueBy(t.values, ValueId)
    && ForeignKeys(t)
  }

  /** `InfoBoxField.objects.filter(name=name).first()`. */
  function FindField(fields: seq<InfoBoxField>, name: string): (r: Option<InfoBoxField>)
    ensures r.Some? ==> r.value in fields && r.value.name == name
    ensures r.None? ==> forall f :: f in fields ==> f.name != name
  {
    if |fields| == 0 then None
    else if fields[0].name == name then Some(fields[0])
    else FindField(fields[1..], name)
  }

  /** The `get` half of `WikiPage.objects.get_or_create(title=title, url=url)`. */
  function FindPage(pages: seq<WikiPage>, title: string, url: string): (r: Option<WikiPage>)
    ensures r.Some? ==> r.value in pages && r.value.title == title && r.value.url == url
    ensures r.None? ==> forall p :: p in pages ==> p.title != title || p.url != url
  {
    if |pages| == 0 then None
    else if pages[0].title == title && pages[0].url == url then Some(pages[0])
    else FindPage(pages[1..], title, url)
  }

  /** A field found in a table is still the one found after rows are appended to the table. */
  lemma {:induction false} FindFieldExtend(fields: seq<InfoBoxField>, more: seq<InfoBoxField>, name: string)
    requires fields <= more
    requires FindField(fields, name).Some?
    ensures FindField(more, name) == FindField(fields, name)
  {
    if fields[0].name != name {
      FindFieldExtend(fields[1..], more[1..], name);
    }
  }

  /** A page found in a table is still the one found after rows are appended to the table. */
  lemma {:induction false} FindPageExtend(pages: seq<WikiPage>, more: seq<WikiPage>, title: string, url: string)
    requires pages <= more
    requires FindPage(pages, title, url).Some?
    ensures FindPage(more, title, url) == FindPage(pages, title, url)
  {
    if pages[0].title != title || pages[0].url != url {
      FindPageExtend(pages[1..], more[1..], title, url);
    }
  }

  /** With unique names, the field a name resolves to is the only field with that name. */
  lemma FindFieldUnique(fields: seq<InfoBoxField>, name: string, f: InfoBoxField)
    requires UniqueBy(fields, FieldName)
    requires f in fields && f.name == name
    ensures FindField(fields, name) == Some(f)
  {
    var g := FindField(fields, name).value;
    var i :| 0 <= i < |fields| && fields[i] == f;
    var j :| 0 <= j < |fields| && fields[j] == g;
  }

  /** In a valid store each value row has exactly one field row and exactly one page row. */
  lemma ValueReferencesOneFieldAndOnePage(t: Tables, r: InfoBoxValue)
    requires Valid(t) && r in t.values
    ensures exists i :: 0 <= i < |t.fields| && t.fields[i].id == r.field
    ensures forall i, j :: 0 <= i < |t.fields| && 0 <= j < |t.fields| && t.fields[i].id == r.field && t.fields[j].id == r.field ==> i == j
    ensures exists i :: 0 <= i < |t.pages| && t.pages[i].id == r.page
    ensures forall i, j :: 0 <= i < |t.pages| && 0 <= j < |t.pages| && t.pages[i].id == r.page && t.pages[j].id == r.page ==> i == j
  {
    var f :| f in t.fields && f.id == r.field;
    var i :| 0 <= i < |t.fields| && t.fields[i] == f;
    var p :| p in t.pages && p.id == r.page;
    var k :| 0 <= k < |t.pages| && t.pages[k] == p;
  }

  /** Deleting a page row; `on_delete=CASCADE` deletes the value rows that point at it. */
  function DeletePage(t: Tables, id: Id): Tables
  {
    Tables(Filter(t.pages, (p: WikiPage) => p.id != id), t.fields, Filter(t.values, (r: InfoBoxValue) => r.page != id))
  }

  /** Deleting a field row; `on_delete=CASCADE` deletes the value rows that point at it. */
  function DeleteField(t: Tables, id: Id): Tables
  {
    Tables(t.pages, Filter(t.fields, (f: InfoBoxField) => f.id != id), Filter(t.values, (r: InfoBoxValue) => r.field != id))
  }

  /**
   * Deleting a page removes that page and exactly the value rows that reference it,
   * leaves the fields alone, and keeps the store valid.
   */
  lemma DeletePageCascades(t: Tables, id: Id)
    requires Valid(t)
    ensures var t' := DeletePage(t, id);
      && Valid(t')
      && t'.fields == t.fields
      && (forall p :: p in t'.pages <==> p in t.pages && p.id != id)
      && (forall r :: r in t'.values <==> r in t.values && r.page != id)
  {
    var t' := DeletePage(t, id);
    FilterUniqueBy(t.pages, (p: WikiPage) => p.id != id, PageId);
    FilterUniqueBy(t.values, (r: InfoBoxValue) => r.page != id, ValueId);
    forall r | r in t'.values ensures HasField(t'.fields, r.field) && HasPage(t'.pages, r.page) {
      var p :| p in t.pages && p.id == r.page;
      assert p in t'.pages;
    }
  }

  /**
   * Deleting a field removes that field and exactly the value rows that reference it,
   * leaves the pages alone, and keeps the store valid.
   */
  lemma DeleteFieldCascades(t: Tables, id: Id)
    requires Valid(t)
    ensures var t' := DeleteField(t, id);
      && Valid(t')
      && t'.pages == t.pages
      && (forall f :: f in t'.fields <==> f in t.fields && f.id != id)
      && (forall r :: r in t'.values <==> r in t.values && r.field != id)
  {
    var t' := DeleteField(t, id);
    FilterUniqueBy(t.fields, (f: InfoBoxField) => f.id != id, FieldId);
    FilterUniqueBy(t.fields, (f: InfoBoxField) => f.id != id, FieldName);
    FilterUniqueBy(t.values, (r: InfoBoxValue) => r.field != id, ValueId);
    forall r | r in t'.values ensures HasField(t'.fields, r.field) && HasPage(t'.pages, r.page) {
      var f :| f in t.fields && f.id == r.field;
      assert f in t'.fields;
    }
  }
}
