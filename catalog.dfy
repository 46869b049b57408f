/**
 * The field/value catalog: `FilterView.get` (field names, or the values of
 * one field, ten per page) and `AllValuesForFieldView.get` (all values of
 * one field).
 */
module Catalog {
  import opened Wrappers
  import opened Seqs
  import opened Models
  import opened Paging
  import opened Responses

  /** `InfoBoxField.objects.values_list('name', flat=True).distinct()`, in storage order. */
  function FieldNameList(t: Tables): (names: seq<string>)
    ensures NoDuplicates(names)
    ensures forall n :: n in names <==> exists f :: f in t.fields && f.name == n
  {
    var all := seq(|t.fields|, i requires 0 <= i < |t.fields| => t.fields[i].name);
    assert forall n :: n in all <==> exists f :: f in t.fields && f.name == n by {
      forall n ensures n in all <==> exists f :: f in t.fields && f.name == n {
        if f :| f in t.fields && f.name == n {
          var i :| 0 <= i < |t.fields| && t.fields[i] == f;
          assert all[i] == n;
        }
      }
    }
    Distinct(all)
  }

  /** Field names are unique, so `distinct()` drops nothing: every field row gives its name once. */
  lemma FieldNameListIsEveryField(t: Tables)
    requires Valid(t)
    ensures FieldNameList(t) == seq(|t.fields|, i requires 0 <= i < |t.fields| => t.fields[i].name)
  {
    var all := seq(|t.fields|, i requires 0 <= i < |t.fields| => t.fields[i].name);
    assert NoDuplicates(all) by {
      forall i, j | 0 <= i < j < |all| ensures all[i] != all[j] {
        assert FieldName(t.fields[i]) != FieldName(t.fields[j]);
      }
    }
    DistinctOfDistinct(all);
  }

  function ValueOfField(fieldId: Id): InfoBoxValue -> Option<string>
  {
    (r: InfoBoxValue) => if r.field == fieldId then Some(r.value) else None
  }

  /** `InfoBoxValue.objects.filter(field=field).values_list('value', flat=True).distinct()`. */
  function FieldValues(t: Tables, fieldId: Id): (vs: seq<string>)
    ensures NoDuplicates(vs)
    ensures forall v :: v in vs <==> exists r :: r in t.values && r.field == fieldId && r.value == v
  {
    var all := FilterMap(t.values, ValueOfField(fieldId));
    assert forall v :: v in all <==> exists r :: r in t.values && r.field == fieldId && r.value == v by {
      forall v ensures v in all <==> exists r :: r in t.values && r.field == fieldId && r.value == v {
        if v in all {
          var i :| 0 <= i < |t.values| && ValueOfField(fieldId)(t.values[i]) == Some(v);
          assert t.values[i] in t.values;
        }
        if r :| r in t.values && r.field == fieldId && r.value == v {
          var i :| 0 <= i < |t.values| && t.values[i] == r;
          assert ValueOfField(fieldId)(t.values[i]) == Some(v);
        }
      }
    }
    Distinct(all)
  }

  /** A listing response body: `{'fields': [...]}` or `{'values': [...]}`. */
  datatype Listing = FieldList(names: seq<string>) | ValueList(values: seq<string>)

  /** A field name was given: Python treats a missing or empty `field` parameter alike. */
  predicate Given(field: Option<string>)
  {
    field.Some? && field.value != ""
  }

  /** `FilterView.get`. */
  function FilterView(t: Tables, field: Option<string>, page: PageParam): (r: Result<Listing, ApiError>)
    ensures !Given(field) ==>
      (var all := FieldNameList(t);
       r == Ok(FieldList(PageOf(all, PageNumber(page, NumPages(|all|))))))
    ensures Given(field) && FindField(t.fields, field.value).None? ==> r == Err(FieldNotFound)
    ensures Given(field) && FindField(t.fields, field.value).Some? ==>
      (var all := FieldValues(t, FindField(t.fields, field.value).value.id);
       r == Ok(ValueList(PageOf(all, PageNumber(page, NumPages(|all|))))))
  {
    if Given(field) then
      match FindField(t.fields, field.value)
      case None => Err(FieldNotFound)
      case Some(f) =>
        var values := FieldValues(t, f.id);
        Ok(ValueList(PageOf(values, PageNumber(page, NumPages(|values|)))))
    else
      var fields := FieldNameList(t);
      Ok(FieldList(PageOf(fields, PageNumber(page, NumPages(|fields|)))))
  }

  /**
   * What a `FilterView` listing holds: at most ten items, none twice; field names
   * of existing fields, or values that some value row of the named field carries.
   */
  lemma FilterViewListing(t: Tables, field: Option<string>, page: PageParam)
    requires Valid(t)
    ensures var r := FilterView(t, field, page);
      r.Ok? ==> match r.value
        case FieldList(names) =>
          && |names| <= 10 && NoDuplicates(names)
          && (forall n :: n in names ==> exists f :: f in t.fields && f.name == n)
        case ValueList(values) =>
          && |values| <= 10 && NoDuplicates(values)
          && (forall v :: v in values ==> exists row :: row in t.values && row.value == v && HasFieldNamed(t.fields, row.field, field.value))
  {
    var r := FilterView(t, field, page);
    if Given(field) {
      if FindField(t.fields, field.value).Some? {
        var f := FindField(t.fields, field.value).value;
        var all := FieldValues(t, f.id);
        PageOfDistinct(all, PageNumber(page, NumPages(|all|)));
      }
    } else {
      var all := FieldNameList(t);
      PageOfDistinct(all, PageNumber(page, NumPages(|all|)));
    }
  }

  /** `AllValuesForFieldView.get`. */
  function AllValuesForField(t: Tables, field: Option<string>): (r: Result<seq<string>, ApiError>)
    requires Valid(t)
    ensures !Given(field) ==> r == Err(FieldParameterRequired)
    ensures Given(field) && FindField(t.fields, field.value).None? ==> r == Err(FieldNotFound)
    ensures Given(field) && FindField(t.fields, field.value).Some? ==> r.Ok?
    ensures r.Ok? ==> NoDuplicates(r.value)
    ensures r.Ok? ==> forall v :: v in r.value <==>
      exists row :: row in t.values && row.value == v && HasFieldNamed(t.fields, row.field, field.value)
  {
    if !Given(field) then Err(FieldParameterRequired)
    else match FindField(t.fields, field.value)
      case None => Err(FieldNotFound)
      case Some(f) =>
        var values := FieldValues(t, f.id);
        assert forall v :: v in values <==>
          exists row :: row in t.values && row.value == v && HasFieldNamed(t.fields, row.field, field.value) by {
          forall v ensures v in values <==>
            exists row :: row in t.values && row.value == v && HasFieldNamed(t.fields, row.field, field.value) {
            if row :| row in t.values && row.value == v && HasFieldNamed(t.fields, row.field, field.value) {
              var g :| g in t.fields && g.id == row.field && g.name == field.value;
              FindFieldUnique(t.fields, field.value, g);
            }
          }
        }
        Ok(values)
  }
}
