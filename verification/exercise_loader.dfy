/** The client's exercise-module loader: a cache of validated modules and a
    set of ids whose import or validation failed, with the module-shape check
    the loader applies. Importing a module is a parameter (its outcome). */
module ExerciseLoader {
  import opened Common

  // ---------------------------------------------------------------------------
  // JavaScript values, as far as the shape check looks at them

  datatype JsValue =
    | JsUndefined
    | JsNull
    | JsBool(b: bool)
    | JsNumber(n: int)
    | JsString(s: string)
    | JsFunction
    | JsObject(fields: map<string, JsValue>)

  predicate Truthy(v: JsValue) {
    match v
    case JsUndefined => false
    case JsNull => false
    case JsBool(b) => b
    case JsNumber(n) => n != 0
    case JsString(s) => s != ""
    case _ => true
  }

  /** `typeof v` */
  function TypeOf(v: JsValue): string {
    match v
    case JsUndefined => "undefined"
    case JsNull => "object"
    case JsBool(_) => "boolean"
    case JsNumber(_) => "number"
    case JsString(_) => "string"
    case JsFunction => "function"
    case JsObject(_) => "object"
  }

  /** `v.name` on an object; a missing property reads as `undefined`. The
      check only reaches property reads on truthy values. */
  function Field(v: JsValue, name: string): JsValue {
    if v.JsObject? && name in v.fields then v.fields[name] else JsUndefined
  }

  /** The `ExerciseMod` interface: a `version` string and a `signRequest`
      function, optionally `prepare` and `renderHints` functions, and nothing
      else. */
  predicate IsExerciseMod(v: JsValue) {
    && v.JsObject?
    && (forall k :: k in v.fields ==> k in {"version", "prepare", "signRequest", "renderHints"})
    && TypeOf(Field(v, "version")) == "string"
    && TypeOf(Field(v, "signRequest")) == "function"
    && ("prepare" in v.fields ==> v.fields["prepare"] == JsFunction)
    && ("renderHints" in v.fields ==> v.fields["renderHints"] == JsFunction)
  }

  /** The default export of the first exercise's module: a version and the
      `prepare`, `signRequest` and `renderHints` functions. */
  const FirstExerciseModule: JsValue :=
    JsObject(map["version" := JsString("1.0.0"), "prepare" := JsFunction, "signRequest" := JsFunction,
                 "renderHints" := JsFunction])

  lemma FirstExerciseModuleIsExerciseMod()
    ensures IsExerciseMod(FirstExerciseModule)
  {
  }

  /** `validateModule` as written: it asks for the fields of an exercise
      record (a numeric `id` and string `title`, `description` and
      `difficulty`), not those of `ExerciseMod`. */
  predicate ValidateModuleAsWritten(v: JsValue) {
    && Truthy(v)
    && TypeOf(Field(v, "id")) == "number"
    && TypeOf(Field(v, "title")) == "string"
    && TypeOf(Field(v, "description")) == "string"
    && TypeOf(Field(v, "difficulty")) == "string"
  }

  /** The check the loader evidently needs: the module is an object with the
      two members every `ExerciseMod` has. */
  predicate ValidateModule(v: JsValue) {
    && Truthy(v)
    && TypeOf(Field(v, "version")) == "string"
    && TypeOf(Field(v, "signRequest")) == "function"
  }

  /** As written, no exercise module passes: an `ExerciseMod` has no `id`. */
  lemma AsWrittenRejectsEveryExerciseMod(v: JsValue)
    requires IsExerciseMod(v)
    ensures !ValidateModuleAsWritten(v)
  {
    assert "id" !in v.fields;
  }

  /** The corrected check accepts every `ExerciseMod`, and anything it accepts
      has the interface's two required members. */
  lemma ValidateModuleAcceptsExerciseMods(v: JsValue)
    ensures IsExerciseMod(v) ==> ValidateModule(v)
    ensures ValidateModule(v) ==>
      v.JsObject? && Field(v, "version").JsString? && Field(v, "signRequest") == JsFunction
  {
  }

  // ---------------------------------------------------------------------------
  // The loader

  /** The loader's state: the validated modules by id, and the ids whose
      loading failed. */
  datatype Loader = Loader(modules: map<int, JsValue>, failed: set<int>)

  const EmptyLoader: Loader := Loader(map[], {})

  /** What importing `./<id>/mod.ts` gives: an error, or the module's default
      export (`undefined` when it has none). */
  datatype ImportOutcome = ImportFailed | Imported(defaultExport: JsValue)

  /** Every cached module passed the check, and no id is both cached and
      failed. */
  predicate Valid(l: Loader, validate: JsValue -> bool) {
    && (forall id :: id in l.modules ==> validate(l.modules[id]))
    && (forall id :: id in l.modules ==> id !in l.failed)
  }

  /** `loadExercise`: a cached module is returned at once and a failed id gets
      null, in both cases without importing; otherwise the import's outcome
      is checked, and the module cached or the id recorded as failed. */
  function LoadExercise(l: Loader, id: int, outcome: ImportOutcome, validate: JsValue -> bool)
    : (r: (Loader, Option<JsValue>))
    ensures id in l.modules ==> r == (l, Some(l.modules[id]))
    ensures id !in l.modules && id in l.failed ==> r == (l, None)
    ensures r.1.Some? ==> id in r.0.modules && r.0.modules[id] == r.1.value
    ensures r.1.Some? && id !in l.modules ==> validate(r.1.value)
    ensures r.1.None? ==> id in r.0.failed && id !in r.0.modules
    ensures id !in l.modules && id !in l.failed && outcome.Imported? && validate(outcome.defaultExport) ==>
      r.1 == Some(outcome.defaultExport)
  {
    if id in l.modules then (l, Some(l.modules[id]))
    else if id in l.failed then (l, None)
    else match outcome
      case ImportFailed => (l.(failed := l.failed + {id}), None)
      case Imported(m) =>
        if !validate(m) then (l.(failed := l.failed + {id}), None)
        else (l.(modules := l.modules[id := m]), Some(m))
  }

  /** `getExercise`: only cached modules. */
  function GetExercise(l: Loader, id: int): (r: Option<JsValue>)
    ensures r.Some? <==> id in l.modules
  {
    if id in l.modules then Some(l.modules[id]) else None
  }

  /** `getAllExercises`, as a set: the cached modules. */
  function AllExercises(l: Loader): set<JsValue> {
    l.modules.Values
  }

  /** `clearCache` */
  function ClearCache(l: Loader): (r: Loader)
    ensures r.modules == map[] && r.failed == {}
  {
    EmptyLoader
  }

  /** Loading keeps the loader consistent, only ever adds to the cache and to
      the failed set, and a later `getExercise` returns what the load
      returned. */
  lemma LoadExerciseLaws(l: Loader, id: int, outcome: ImportOutcome, validate: JsValue -> bool)
    requires Valid(l, validate)
    ensures var (l', res) := LoadExercise(l, id, outcome, validate);
      && Valid(l', validate)
      && l.failed <= l'.failed
      && (forall k :: k in l.modules ==> k in l'.modules && l'.modules[k] == l.modules[k])
      && (forall k :: k != id ==> (k in l'.modules <==> k in l.modules) && (k in l'.failed <==> k in l.failed))
      && GetExercise(l', id) == res
      && (res.Some? ==> res.value in AllExercises(l'))
  {
  }

  /** Loading several ids one after another, with the import outcome of each. */
  function LoadAll(l: Loader, ids: seq<int>, outcomes: seq<ImportOutcome>, validate: JsValue -> bool): (r: Loader)
    requires |outcomes| == |ids|
    decreases |ids|
  {
    if |ids| == 0 then l
    else LoadAll(LoadExercise(l, ids[0], outcomes[0], validate).0, ids[1..], outcomes[1..], validate)
  }

  /** A failed id stays failed, whatever is loaded afterwards, until the cache
      is cleared; a cached module stays cached. */
  lemma {:induction false} FailureIsSticky(l: Loader, ids: seq<int>, outcomes: seq<ImportOutcome>, validate: JsValue -> bool, id: int)
    requires |outcomes| == |ids|
    requires Valid(l, validate)
    ensures var l' := LoadAll(l, ids, outcomes, validate);
      && Valid(l', validate)
      && (id in l.failed ==> id in l'.failed && GetExercise(l', id).None?)
      && (id in l.modules ==> GetExercise(l', id) == GetExercise(l, id))
    decreases |ids|
  {
    if |ids| > 0 {
      var l1 := LoadExercise(l, ids[0], outcomes[0], validate).0;
      LoadExerciseLaws(l, ids[0], outcomes[0], validate);
      FailureIsSticky(l1, ids[1..], outcomes[1..], validate, id);
    }
  }

  /** As written, loading an exercise module never succeeds: the module is
      rejected, the id is recorded as failed, and nothing is ever cached. */
  lemma AsWrittenNeverLoads(l: Loader, id: int, m: JsValue)
    requires Valid(l, ValidateModuleAsWritten) && l.modules == map[]
    requires IsExerciseMod(m)
    ensures var (l', res) := LoadExercise(l, id, Imported(m), ValidateModuleAsWritten);
      res.None? && id in l'.failed && l'.modules == map[]
  {
    AsWrittenRejectsEveryExerciseMod(m);
  }

  /** With the corrected check, a fresh loader (or one just cleared) caches the
      first exercise's module, and loading it again needs no import. */
  lemma CorrectedLoadsExerciseMods(l: Loader, id: int, m: JsValue, again: ImportOutcome)
    requires IsExerciseMod(m)
    ensures var (l1, res) := LoadExercise(ClearCache(l), id, Imported(m), ValidateModule);
      && res == Some(m)
      && GetExercise(l1, id) == Some(m)
      && LoadExercise(l1, id, again, ValidateModule) == (l1, Some(m))
  {
    ValidateModuleAcceptsExerciseMods(m);
  }
}
