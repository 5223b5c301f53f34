/** The board's field catalog: field name -> field, and for a single-select
    field, option name -> option id (scripts/project_gardener.py:203-208). */
module FieldCatalog {
  import opened Base
  import opened Dicts

  datatype OptionNode = OptionNode(id: string, name: string)

  /** One node of the fields query. A field of a kind that neither query
      fragment selects (an iteration field, say) arrives as an empty object. */
  datatype FieldNode = OtherKind | Named(field: Field)

  /** A field as the query selects it; only single-select fields carry options. */
  datatype Field = Field(id: string, name: string, options: Option<seq<OptionNode>>)

  /** A resolved single-select field: its id and its option dict. */
  datatype SelectField = SelectField(id: string, options: Dict<string, string>)

  datatype Catalog = Catalog(status: Option<SelectField>, priority: Option<SelectField>)

  /** The catalog step raises: a node without a name, or a Status/Priority
      field without options. */
  datatype CatalogError = FieldWithoutName | FieldWithoutOptions(name: string)

  /** `{opt['name']: opt['id'] for opt in options}`. */
  function OptionDict(opts: seq<OptionNode>): Dict<string, string>
  {
    FromPairs(OptionPairs(opts))
  }

  function OptionPairs(opts: seq<OptionNode>): (r: seq<(string, string)>)
    ensures |r| == |opts|
    ensures forall i :: 0 <= i < |opts| ==> r[i] == (opts[i].name, opts[i].id)
  {
    seq(|opts|, i requires 0 <= i < |opts| => (opts[i].name, opts[i].id))
  }

  /** The id of the last option node carrying this name, if any. */
  function LastOptionId(opts: seq<OptionNode>, name: string): Option<string>
  {
    if opts == [] then None
    else if opts[|opts| - 1].name == name then Some(opts[|opts| - 1].id)
    else LastOptionId(opts[..|opts| - 1], name)
  }

  /** Looking a name up in the option dict gives the id of the last option
      node with that name: a later option overwrites an earlier one. */
  lemma {:induction false} OptionDictLast(opts: seq<OptionNode>, name: string)
    ensures Get(OptionDict(opts), name) == LastOptionId(opts, name)
  {
    var pairs := OptionPairs(opts);
    GetFromPairs(pairs, name);
    LastValueOption(opts, pairs, name);
  }

  lemma {:induction false} LastValueOption(opts: seq<OptionNode>, pairs: seq<(string, string)>, name: string)
    requires |pairs| == |opts|
    requires forall i :: 0 <= i < |opts| ==> pairs[i] == (opts[i].name, opts[i].id)
    ensures LastValue(pairs, name) == LastOptionId(opts, name)
  {
    if opts != [] {
      LastValueOption(opts[..|opts| - 1], pairs[..|pairs| - 1], name);
    }
  }

  predicate AllNamed(fields: seq<FieldNode>)
  {
    forall i :: 0 <= i < |fields| ==> fields[i].Named?
  }

  /** `{f['name']: f for f in fields}`. */
  function FieldMap(fields: seq<FieldNode>): Dict<string, Field>
    requires AllNamed(fields)
  {
    FromPairs(FieldPairs(fields))
  }

  function FieldPairs(fields: seq<FieldNode>): (r: seq<(string, Field)>)
    requires AllNamed(fields)
    ensures |r| == |fields|
    ensures forall i :: 0 <= i < |fields| ==> r[i] == (fields[i].field.name, fields[i].field)
  {
    seq(|fields|, i requires 0 <= i < |fields| && AllNamed(fields) => (fields[i].field.name, fields[i].field))
  }

  /** The last field node carrying this name, if any. */
  function LastNamed(fields: seq<FieldNode>, name: string): Option<Field>
  {
    if fields == [] then None
    else if fields[|fields| - 1].Named? && fields[|fields| - 1].field.name == name then Some(fields[|fields| - 1].field)
    else LastNamed(fields[..|fields| - 1], name)
  }

  /** `field_map.get(name)` then its option dict, `{}` when the field is missing. */
  function Resolve(field: Option<Field>): Result<Option<SelectField>, CatalogError>
  {
    match field
    case None => Ok(None)
    case Some(f) =>
      match f.options
      case None => Err(FieldWithoutOptions(f.name))
      case Some(opts) => Ok(Some(SelectField(f.id, OptionDict(opts))))
  }

  function BuildCatalog(fields: seq<FieldNode>): Result<Catalog, CatalogError>
  {
    if !AllNamed(fields) then Err(FieldWithoutName)
    else
      var fm := FieldMap(fields);
      match Resolve(Get(fm, "Status"))
      case Err(e) => Err(e)
      case Ok(status) =>
        match Resolve(Get(fm, "Priority"))
        case Err(e) => Err(e)
        case Ok(priority) => Ok(Catalog(status, priority))
  }

  /** `status_options`: the Status field's options, or `{}` without a Status field. */
  function StatusOptions(c: Catalog): Dict<string, string>
  {
    if c.status.Some? then c.status.value.options else []
  }

  function PriorityOptions(c: Catalog): Dict<string, string>
  {
    if c.priority.Some? then c.priority.value.options else []
  }

  lemma {:induction false} FieldMapLast(fields: seq<FieldNode>, name: string)
    requires AllNamed(fields)
    ensures Get(FieldMap(fields), name) == LastNamed(fields, name)
  {
    var pairs := FieldPairs(fields);
    GetFromPairs(pairs, name);
    LastValueNamed(fields, pairs, name);
  }

  lemma {:induction false} LastValueNamed(fields: seq<FieldNode>, pairs: seq<(string, Field)>, name: string)
    requires AllNamed(fields)
    requires |pairs| == |fields|
    requires forall i :: 0 <= i < |fields| ==> pairs[i] == (fields[i].field.name, fields[i].field)
    ensures LastValue(pairs, name) == LastNamed(fields, name)
  {
    if fields != [] {
      LastValueNamed(fields[..|fields| - 1], pairs[..|pairs| - 1], name);
    }
  }

  /** The catalog step fails exactly when a node has no name or a resolved
      Status/Priority field lacks options; otherwise each of the two fields
      is the LAST field of that name. */
  lemma BuildCatalogSpec(fields: seq<FieldNode>)
    ensures BuildCatalog(fields) == Err(FieldWithoutName) <==> !AllNamed(fields)
    ensures AllNamed(fields) ==>
      var s := LastNamed(fields, "Status");
      var p := LastNamed(fields, "Priority");
      && (BuildCatalog(fields).Ok? <==> (s.Some? ==> s.value.options.Some?) && (p.Some? ==> p.value.options.Some?))
      && (BuildCatalog(fields).Ok? ==>
            && (BuildCatalog(fields).value.status.Some? <==> s.Some?)
            && (s.Some? ==> BuildCatalog(fields).value.status.value.id == s.value.id)
            && (BuildCatalog(fields).value.priority.Some? <==> p.Some?)
            && (p.Some? ==> BuildCatalog(fields).value.priority.value.id == p.value.id)
            && (s.Some? ==> BuildCatalog(fields).value.status.value.options == OptionDict(s.value.options.value))
            && (p.Some? ==> BuildCatalog(fields).value.priority.value.options == OptionDict(p.value.options.value)))
  {
    if AllNamed(fields) {
      FieldMapLast(fields, "Status");
      FieldMapLast(fields, "Priority");
      LastNamedIsNamed(fields, "Status");
      LastNamedIsNamed(fields, "Priority");
    }
  }

  lemma {:induction false} LastNamedIsNamed(fields: seq<FieldNode>, name: string)
    ensures LastNamed(fields, name).Some? ==> LastNamed(fields, name).value.name == name
  {
    if fields != [] {
      LastNamedIsNamed(fields[..|fields| - 1], name);
    }
  }
  /** `status_options.get(name)`: the id of the last option of that name on
      the last field named "Status"; nothing without a Status field. */
  lemma StatusOptionLookup(fields: seq<FieldNode>, name: string)
    requires BuildCatalog(fields).Ok?
    ensures var s := LastNamed(fields, "Status");
      Get(StatusOptions(BuildCatalog(fields).value), name)
        == (if s.Some? && s.value.options.Some? then LastOptionId(s.value.options.value, name) else None)
  {
    BuildCatalogSpec(fields);
    var s := LastNamed(fields, "Status");
    if s.Some? && s.value.options.Some? {
      OptionDictLast(s.value.options.value, name);
    }
  }

  /** `priority_options.get(name)`, likewise for the field named "Priority". */
  lemma PriorityOptionLookup(fields: seq<FieldNode>, name: string)
    requires BuildCatalog(fields).Ok?
    ensures var p := LastNamed(fields, "Priority");
      Get(PriorityOptions(BuildCatalog(fields).value), name)
        == (if p.Some? && p.value.options.Some? then LastOptionId(p.value.options.value, name) else None)
  {
    BuildCatalogSpec(fields);
    var p := LastNamed(fields, "Priority");
    if p.Some? && p.value.options.Some? {
      OptionDictLast(p.value.options.value, name);
    }
  }
}
