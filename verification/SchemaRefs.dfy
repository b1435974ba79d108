/** JSON values, and the reference rewriting at the heart of `fix_anomalies`. */
module SchemaRefs {
  import opened Wrappers
  import opened PyStrings

  /** A JSON value as `json.loads` builds it. The order of the members of an object plays no part here. */
  datatype Json =
    | Null
    | Bool(b: bool)
    | Num(n: real)
    | Str(s: string)
    | Arr(items: seq<Json>)
    | Obj(fields: map<string, Json>)

  /** What the second pass knows: the definitions key, the long-to-short mapping,
      and the names present in the definitions table after the first pass. */
  datatype Context = Context(defsKey: string, mapping: map<string, string>, names: set<string>)

  predicate IsLong(name: string) {
    Contains(name, "__")
  }

  /** `key.split('__')[-1]` */
  function ShortName(name: string): string {
    LastPiece(name, "__")
  }

  /** The definition the code takes a reference to point at: for any reference that mentions the definitions key,
      its last piece. What a reference does point at is `Named`, in SchemaMeaning. */
  function Target(defsKey: string, ref: string): Option<string> {
    if Contains(ref, defsKey) then Some(LastPiece(ref, "/")) else None
  }

  function MakeRef(defsKey: string, name: string): string {
    "#/" + defsKey + "/" + name
  }

  // ---------------------------------------------------------------- one reference

  predicate IsProblematic(c: Context, ref: string) {
    match Target(c.defsKey, ref)
    case None => false
    case Some(t) => t !in c.mapping && IsLong(t) && ShortName(t) !in c.names
  }

  function FixRef(c: Context, ref: string): string {
    match Target(c.defsKey, ref)
    case None => ref
    case Some(t) =>
      if t in c.mapping then MakeRef(c.defsKey, c.mapping[t])
      else if IsLong(t) && ShortName(t) in c.names then MakeRef(c.defsKey, ShortName(t))
      else ref
  }

  // ---------------------------------------------------------------- one object

  predicate IsRef(key: string, value: Json) {
    key == "$ref" && value.Str?
  }

  /** The effect of `fix_refs_in_object(j)` on the value of `j`. */
  function FixValue(c: Context, j: Json): Json
    decreases j, 0
  {
    if j.Obj? then Obj(map k | k in j.fields :: FixMember(c, k, j.fields[k])) else j
  }

  function FixMember(c: Context, key: string, value: Json): Json
    decreases value, 1
  {
    if IsRef(key, value) then Str(FixRef(c, value.s))
    else if value.Obj? then FixValue(c, value)
    else if value.Arr? then
      Arr(seq(|value.items|, i requires 0 <= i < |value.items| => FixValue(c, value.items[i])))
    else value
  }

  /** The targets `fix_refs_in_object(j)` adds to `problematic_refs`. */
  function Problems(c: Context, j: Json): set<string>
    decreases j, 0
  {
    if j.Obj? then set k, t | k in j.fields && t in ProblemsOfMember(c, k, j.fields[k]) :: t else {}
  }

  function ProblemsOfMember(c: Context, key: string, value: Json): set<string>
    decreases value, 1
  {
    if IsRef(key, value) then
      if IsProblematic(c, value.s) then {Target(c.defsKey, value.s).value} else {}
    else if value.Obj? then Problems(c, value)
    else if value.Arr? then
      set i, t | 0 <= i < |value.items| && t in Problems(c, value.items[i]) :: t
    else {}
  }

  /** The rewriting raises no exception: `defs_key in ref` and `ref.split` are defined wherever they are evaluated. */
  predicate Safe(defsKey: string, j: Json)
    decreases j, 0
  {
    j.Obj? ==>
      && ("$ref" in j.fields ==> SafeRef(defsKey, j.fields["$ref"]))
      && forall k | k in j.fields :: SafeMember(defsKey, k, j.fields[k])
  }

  predicate SafeRef(defsKey: string, ref: Json) {
    match ref
    case Str(_) => true
    case Arr(items) => Str(defsKey) !in items
    case Obj(fields) => defsKey !in fields
    case _ => false
  }

  predicate SafeMember(defsKey: string, key: string, value: Json)
    decreases value, 1
  {
    if value.Obj? then Safe(defsKey, value)
    else if value.Arr? then forall i | 0 <= i < |value.items| :: Safe(defsKey, value.items[i])
    else true
  }

  /** The `$ref` member of an object, rewritten in place when it is a reference the pass can move. */
  method FixDirectRef(c: Context, obj: map<string, Json>) returns (fields: map<string, Json>, problems: set<string>)
    requires "$ref" in obj && obj["$ref"].Str?
    ensures fields == obj["$ref" := FixMember(c, "$ref", obj["$ref"])]
    ensures problems == ProblemsOfMember(c, "$ref", obj["$ref"])
  {
    fields, problems := obj, {};
    var ref := obj["$ref"].s;
    if Contains(ref, c.defsKey) {
      var refPath := LastPiece(ref, "/");
      if refPath in c.mapping {
        fields := fields["$ref" := Str(MakeRef(c.defsKey, c.mapping[refPath]))];
      } else if IsLong(refPath) {
        var simpleRef := ShortName(refPath);
        if simpleRef in c.names {
          fields := fields["$ref" := Str(MakeRef(c.defsKey, simpleRef))];
        } else {
          problems := {refPath};
        }
      }
    }
  }

  /** `fix_refs_in_object`, on the value of the object it is given: first the `$ref` member,
      then every member, list items included. */
  method FixRefsInObject(c: Context, obj: Json) returns (fixed: Json, problems: set<string>)
    requires Safe(c.defsKey, obj)
    ensures fixed == FixValue(c, obj)
    ensures problems == Problems(c, obj)
    decreases obj, 0
  {
    hide FixMember, ProblemsOfMember, SafeMember, Safe;
    fixed, problems := obj, {};
    if !obj.Obj? {
      return;
    }
    var fields := obj.fields;
    var todo := fields.Keys;
    if "$ref" in fields && fields["$ref"].Str? {
      fields, problems := FixDirectRef(c, fields);
      todo := todo - {"$ref"};
    }
    while todo != {}
      invariant todo <= obj.fields.Keys == fields.Keys
      invariant forall k | k in todo :: fields[k] == obj.fields[k] && !IsRef(k, fields[k])
      invariant forall k | k in fields && k !in todo :: fields[k] == FixMember(c, k, obj.fields[k])
      invariant forall t | t in problems :: t in Problems(c, obj)
      invariant forall k | k in fields && k !in todo :: ProblemsOfMember(c, k, obj.fields[k]) <= problems
    {
      var k :| k in todo;
      var value := fields[k];
      SafeMembers(c.defsKey, obj, k);
      var v, more := FixRefsInMember(c, k, value);
      fields, problems, todo := fields[k := v], problems + more, todo - {k};
    }
    fixed := Obj(fields);
  }

  lemma SafeMembers(defsKey: string, obj: Json, key: string)
    requires Safe(defsKey, obj) && obj.Obj? && key in obj.fields
    ensures SafeMember(defsKey, key, obj.fields[key])
  {
  }

  /** One member other than a direct reference: an object, a list whose items are looked at, or neither. */
  method FixRefsInMember(c: Context, key: string, value: Json) returns (fixed: Json, problems: set<string>)
    requires SafeMember(c.defsKey, key, value) && !IsRef(key, value)
    ensures fixed == FixMember(c, key, value)
    ensures problems == ProblemsOfMember(c, key, value)
    decreases value, 1
  {
    fixed, problems := value, {};
    if value.Obj? {
      fixed, problems := FixRefsInObject(c, value);
    } else if value.Arr? {
      var items := value.items;
      for i := 0 to |items|
        invariant |items| == |value.items|
        invariant forall j | 0 <= j < i :: items[j] == FixValue(c, value.items[j])
        invariant forall j | i <= j < |items| :: items[j] == value.items[j]
        invariant forall t :: t in problems <==> exists j :: 0 <= j < i && t in Problems(c, value.items[j])
      {
        if items[i].Obj? {
          var v, more := FixRefsInObject(c, items[i]);
          items, problems := items[i := v], problems + more;
        }
      }
      fixed := Arr(items);
      assert forall t :: t in problems <==> t in ProblemsOfMember(c, key, value);
    }
  }
}
