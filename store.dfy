/**
 * The record store of the vehicle form (`onSubmit`, `handleEdit` and
 * `handleDelete` in src/components/formVeiculos.tsx): an ordered list of
 * records, the id of the record being edited, and the "vehicles" slot of the
 * browser's local storage, which is overwritten with the whole list on every
 * change. The clock reading, the answer of the confirmation dialog and the
 * brand list loaded for the selected type are parameters.
 */
module Store {
  import opened Wrappers
  import opened Validation

  /** A stored record: the submitted values and the `id` taken from the clock when it was created. */
  datatype Vehicle = Vehicle(id: int, values: FormValues)

  /** One entry of the brand catalogue: its token and its label. */
  datatype Brand = Brand(valor: string, nome: string)

  /** What a submit did. */
  datatype SubmitOutcome =
    | Invalid(fields: set<Field>)   // the validator refused the form; the handler never ran
    | DuplicatePlate                // create refused: the plate is already stored
    | Created(id: int)
    | Updated(id: int)

  // ---------------------------------------------------------------- list computations

  /** Whether some stored record already has the plate (strict string equality). */
  function PlateTaken(vs: seq<Vehicle>, placa: string): (taken: bool)
    ensures taken <==> exists i :: 0 <= i < |vs| && vs[i].values.placa == placa
  {
    if vs == [] then false
    else
      assert forall i :: 1 <= i < |vs| ==> vs[i] == vs[1..][i - 1];
      vs[0].values.placa == placa || PlateTaken(vs[1..], placa)
  }

  /** The first loaded brand whose token is `marcaId`, or `None` when no entry has it. */
  function FindBrand(brands: seq<Brand>, marcaId: string): (r: Option<Brand>)
    ensures r.None? <==> forall i :: 0 <= i < |brands| ==> brands[i].valor != marcaId
    ensures r.Some? ==> exists i :: 0 <= i < |brands| && brands[i] == r.value && IsFirstBrand(brands, marcaId, i)
  {
    if brands == [] then None
    else if brands[0].valor == marcaId then
      assert IsFirstBrand(brands, marcaId, 0);
      Some(brands[0])
    else
      var r := FindBrand(brands[1..], marcaId);
      assert r.Some? ==> exists i :: 0 <= i < |brands| && brands[i] == r.value && IsFirstBrand(brands, marcaId, i) by {
        if r.Some? {
          var k :| 0 <= k < |brands| - 1 && brands[1..][k] == r.value && IsFirstBrand(brands[1..], marcaId, k);
          assert IsFirstBrand(brands, marcaId, k + 1);
        }
      }
      assert r.None? ==> forall i :: 0 <= i < |brands| ==> brands[i].valor != marcaId by {
        if r.None? {
          forall i | 1 <= i < |brands| ensures brands[i].valor != marcaId {
            assert brands[i] == brands[1..][i - 1];
          }
        }
      }
      r
  }

  /** Entry `i` carries token `marcaId` and no earlier entry does. */
  ghost predicate IsFirstBrand(brands: seq<Brand>, marcaId: string, i: int) {
    && 0 <= i < |brands|
    && brands[i].valor == marcaId
    && forall j :: 0 <= j < i ==> brands[j].valor != marcaId
  }

  /**
   * The brand-label step of submit: the label of the first loaded brand whose
   * token is `marcaId` replaces `marca`; with no match, or no list loaded, the
   * values stay as submitted. No other field changes.
   */
  function ResolveBrand(loaded: Option<seq<Brand>>, v: FormValues): (r: FormValues)
    ensures r.(marca := v.marca) == v
    ensures (loaded.None? || forall i :: 0 <= i < |loaded.value| ==> loaded.value[i].valor != v.marcaId) ==> r == v
    ensures forall i :: loaded.Some? && IsFirstBrand(loaded.value, v.marcaId, i) ==> r.marca == loaded.value[i].nome
  {
    if loaded.None? then v
    else
      match FindBrand(loaded.value, v.marcaId)
      case None => v
      case Some(brand) =>
        assert forall i, k :: IsFirstBrand(loaded.value, v.marcaId, i) && IsFirstBrand(loaded.value, v.marcaId, k) ==> i == k;
        v.(marca := brand.nome)
  }

  /** Every record with the id takes the submitted values and keeps its id; every other record stays as it is, in place. */
  function UpdateById(vs: seq<Vehicle>, id: int, v: FormValues): (r: seq<Vehicle>)
    ensures |r| == |vs|
    ensures forall i :: 0 <= i < |vs| ==> r[i].id == vs[i].id
    ensures forall i :: 0 <= i < |vs| && vs[i].id == id ==> r[i].values == v
    ensures forall i :: 0 <= i < |vs| && vs[i].id != id ==> r[i] == vs[i]
  {
    if vs == [] then []
    else
      var head := if vs[0].id == id then Vehicle(vs[0].id, v) else vs[0];
      var tail := UpdateById(vs[1..], id, v);
      assert forall i :: 1 <= i < |vs| ==> ([head] + tail)[i] == tail[i - 1] && vs[i] == vs[1..][i - 1];
      [head] + tail
  }

  /** The records whose id differs from `id`, in their original order. */
  function RemoveById(vs: seq<Vehicle>, id: int): (r: seq<Vehicle>)
    ensures |r| <= |vs|
    ensures forall x :: x in r <==> x in vs && x.id != id
  {
    if vs == [] then []
    else if vs[0].id == id then RemoveById(vs[1..], id)
    else
      assert forall x :: x in vs <==> x == vs[0] || x in vs[1..];
      [vs[0]] + RemoveById(vs[1..], id)
  }

  /** The first record with the id, or `None` when no record has it. */
  function FindById(vs: seq<Vehicle>, id: int): (r: Option<Vehicle>)
    ensures r.None? <==> forall i :: 0 <= i < |vs| ==> vs[i].id != id
    ensures r.Some? ==> exists i :: 0 <= i < |vs| && vs[i] == r.value && IsFirstWithId(vs, id, i)
  {
    if vs == [] then None
    else if vs[0].id == id then
      assert IsFirstWithId(vs, id, 0);
      Some(vs[0])
    else
      var r := FindById(vs[1..], id);
      assert r.Some? ==> exists i :: 0 <= i < |vs| && vs[i] == r.value && IsFirstWithId(vs, id, i) by {
        if r.Some? {
          var k :| 0 <= k < |vs| - 1 && vs[1..][k] == r.value && IsFirstWithId(vs[1..], id, k);
          assert IsFirstWithId(vs, id, k + 1);
        }
      }
      assert r.None? ==> forall i :: 0 <= i < |vs| ==> vs[i].id != id by {
        if r.None? {
          forall i | 1 <= i < |vs| ensures vs[i].id != id {
            assert vs[i] == vs[1..][i - 1];
          }
        }
      }
      r
  }

  /** Record `i` has the id and no earlier record does. */
  ghost predicate IsFirstWithId(vs: seq<Vehicle>, id: int, i: int) {
    && 0 <= i < |vs|
    && vs[i].id == id
    && forall j :: 0 <= j < i ==> vs[j].id != id
  }

  // ---------------------------------------------------------------- properties of the list computations

  /** No two records share a plate. */
  ghost predicate PlatesUnique(vs: seq<Vehicle>) {
    forall i, j :: 0 <= i < j < |vs| ==> vs[i].values.placa != vs[j].values.placa
  }

  /** No two records share an id. */
  ghost predicate IdsUnique(vs: seq<Vehicle>) {
    forall i, j :: 0 <= i < j < |vs| ==> vs[i].id != vs[j].id
  }

  /** Every record is a fixed point of the validator for the given year: it is what an accepted submit stores. */
  ghost predicate AllValid(vs: seq<Vehicle>, currentYear: int) {
    forall i :: 0 <= i < |vs| ==> Validate(vs[i].values, currentYear) == Accepted(vs[i].values)
  }

  /** Appending a record whose plate is not taken keeps the plates unique. */
  lemma AppendKeepsPlatesUnique(vs: seq<Vehicle>, x: Vehicle)
    requires PlatesUnique(vs) && !PlateTaken(vs, x.values.placa)
    ensures PlatesUnique(vs + [x])
  {
    var ws := vs + [x];
    forall i, j | 0 <= i < j < |ws| ensures ws[i].values.placa != ws[j].values.placa {
      if j == |vs| {
        assert ws[i] == vs[i];
      } else {
        assert ws[i] == vs[i] && ws[j] == vs[j];
      }
    }
  }

  /** With a clock that has moved past every stored id, the new id is fresh. */
  lemma AppendKeepsIdsUnique(vs: seq<Vehicle>, now: int, v: FormValues)
    requires IdsUnique(vs)
    requires forall i :: 0 <= i < |vs| ==> vs[i].id < now
    ensures IdsUnique(vs + [Vehicle(now, v)])
  {
    var ws := vs + [Vehicle(now, v)];
    forall i, j | 0 <= i < j < |ws| ensures ws[i].id != ws[j].id {
      assert ws[i] == vs[i];
    }
  }

  /** The clock is not a fresh-id source: a create at a tick equal to a stored id duplicates that id. */
  lemma ClockCollisionDuplicatesId(vs: seq<Vehicle>, i: nat, v: FormValues)
    requires i < |vs|
    ensures !IdsUnique(vs + [Vehicle(vs[i].id, v)])
  {
    var ws := vs + [Vehicle(vs[i].id, v)];
    assert ws[i] == vs[i] && ws[|vs|].id == vs[i].id;
  }

  /** Update never checks plates: it can give a record the plate of another one. */
  lemma UpdateCanDuplicatePlate(a: Vehicle, b: Vehicle, v: FormValues)
    requires a.id != b.id && a.values.placa != b.values.placa
    requires v.placa == b.values.placa
    ensures PlatesUnique([a, b])
    ensures !PlatesUnique(UpdateById([a, b], a.id, v))
  {
    var r := UpdateById([a, b], a.id, v);
    assert r[0].values.placa == r[1].values.placa;
  }

  /** Update with an id that no record has changes nothing. */
  lemma UpdateAbsentIdIsIdentity(vs: seq<Vehicle>, id: int, v: FormValues)
    requires FindById(vs, id).None?
    ensures UpdateById(vs, id, v) == vs
  {
  }

  /** Updating twice with the same values is updating once. */
  lemma UpdateIdempotent(vs: seq<Vehicle>, id: int, v: FormValues)
    ensures UpdateById(UpdateById(vs, id, v), id, v) == UpdateById(vs, id, v)
  {
  }

  /** Filtering distributes over concatenation, so the records that remain keep their relative order. */
  lemma {:induction false} RemoveByIdAppend(a: seq<Vehicle>, b: seq<Vehicle>, id: int)
    ensures RemoveById(a + b, id) == RemoveById(a, id) + RemoveById(b, id)
  {
    if a != [] {
      assert (a + b)[0] == a[0];
      assert (a + b)[1..] == a[1..] + b;
      RemoveByIdAppend(a[1..], b, id);
    } else {
      assert a + b == b;
    }
  }

  /** With no record carrying the id, delete keeps the list as it is. */
  lemma {:induction false} RemoveAbsentIdIsIdentity(vs: seq<Vehicle>, id: int)
    requires FindById(vs, id).None?
    ensures RemoveById(vs, id) == vs
  {
    if vs != [] {
      assert vs[0].id != id;
      assert FindById(vs[1..], id).None?;
      RemoveAbsentIdIsIdentity(vs[1..], id);
    }
  }

  /** Delete removes every record with the id, and a second delete finds nothing more to remove. */
  lemma RemoveByIdIdempotent(vs: seq<Vehicle>, id: int)
    ensures FindById(RemoveById(vs, id), id).None?
    ensures RemoveById(RemoveById(vs, id), id) == RemoveById(vs, id)
  {
    var r := RemoveById(vs, id);
    assert forall i :: 0 <= i < |r| ==> r[i] in r;
    RemoveAbsentIdIsIdentity(r, id);
  }

  /** Removing records keeps the plates unique. */
  lemma {:induction false} RemoveKeepsPlatesUnique(vs: seq<Vehicle>, id: int)
    requires PlatesUnique(vs)
    ensures PlatesUnique(RemoveById(vs, id))
  {
    if vs != [] {
      var tail := vs[1..];
      assert PlatesUnique(tail) by {
        forall i, j | 0 <= i < j < |tail| ensures tail[i].values.placa != tail[j].values.placa {
          assert tail[i] == vs[i + 1] && tail[j] == vs[j + 1];
        }
      }
      RemoveKeepsPlatesUnique(tail, id);
      if vs[0].id != id {
        var rest := RemoveById(tail, id);
        var r := [vs[0]] + rest;
        forall j | 0 <= j < |rest| ensures vs[0].values.placa != rest[j].values.placa {
          assert rest[j] in tail;
          var k :| 0 <= k < |tail| && tail[k] == rest[j];
          assert vs[k + 1] == rest[j];
        }
        forall i, j | 0 <= i < j < |r| ensures r[i].values.placa != r[j].values.placa {
          if i > 0 {
            assert r[i] == rest[i - 1] && r[j] == rest[j - 1];
          }
        }
      }
    }
  }

  /** Brand resolution touches only `marca`, so it keeps a record valid. */
  lemma ResolveBrandKeepsValid(loaded: Option<seq<Brand>>, v: FormValues, currentYear: int)
    requires Validate(v, currentYear) == Accepted(v)
    ensures Validate(ResolveBrand(loaded, v), currentYear) == Accepted(ResolveBrand(loaded, v))
  {
    MarcaUnconstrained(v, ResolveBrand(loaded, v).marca, currentYear);
  }

  /** Every operation of the store keeps all records valid when the submitted values are valid. */
  lemma UpdateKeepsValid(vs: seq<Vehicle>, id: int, v: FormValues, currentYear: int)
    requires AllValid(vs, currentYear) && Validate(v, currentYear) == Accepted(v)
    ensures AllValid(UpdateById(vs, id, v), currentYear)
  {
  }

  lemma AppendKeepsValid(vs: seq<Vehicle>, x: Vehicle, currentYear: int)
    requires AllValid(vs, currentYear) && Validate(x.values, currentYear) == Accepted(x.values)
    ensures AllValid(vs + [x], currentYear)
  {
    var ws := vs + [x];
    forall i | 0 <= i < |ws| ensures Validate(ws[i].values, currentYear) == Accepted(ws[i].values) {
      if i < |vs| { assert ws[i] == vs[i]; }
    }
  }

  lemma RemoveKeepsValid(vs: seq<Vehicle>, id: int, currentYear: int)
    requires AllValid(vs, currentYear)
    ensures AllValid(RemoveById(vs, id), currentYear)
  {
    var r := RemoveById(vs, id);
    forall i | 0 <= i < |r| ensures Validate(r[i].values, currentYear) == Accepted(r[i].values) {
      assert r[i] in vs;
    }
  }

  // ---------------------------------------------------------------- the component state

  class VehicleStore {
    /** The `vehicles` state: the records in insertion order. */
    var vehicles: seq<Vehicle>
    /** The `editingId` state: the id of the record loaded into the form, if any. */
    var editingId: Option<int>
    /** The "vehicles" slot of local storage; `None` while nothing is stored there. */
    var persisted: Option<seq<Vehicle>>

    /** The slot mirrors the list, except before the first write, when both are empty. */
    ghost predicate Valid()
      reads this
    {
      persisted == Some(vehicles) || (persisted == None && vehicles == [])
    }

    /** Mounting the component: an empty list, replaced by the stored one when the slot holds a list. */
    constructor Load(stored: Option<seq<Vehicle>>)
      ensures Valid()
      ensures vehicles == stored.GetOr([]) && persisted == stored && editingId == None
    {
      vehicles := stored.GetOr([]);
      editingId := None;
      persisted := stored;
    }

    /** `onSubmit`, reached with values the validator accepted. */
    method SubmitValues(values: FormValues, brands: Option<seq<Brand>>, now: int) returns (outcome: SubmitOutcome)
      requires Valid()
      modifies this
      ensures Valid()
      ensures old(editingId).Some? ==>
        && outcome == Updated(old(editingId).value)
        && vehicles == UpdateById(old(vehicles), old(editingId).value, ResolveBrand(brands, values))
        && editingId == None && persisted == Some(vehicles)
      ensures old(editingId).None? && PlateTaken(old(vehicles), values.placa) ==>
        && outcome == DuplicatePlate
        && vehicles == old(vehicles) && persisted == old(persisted) && editingId == None
      ensures old(editingId).None? && !PlateTaken(old(vehicles), values.placa) ==>
        && outcome == Created(now)
        && vehicles == old(vehicles) + [Vehicle(now, ResolveBrand(brands, values))]
        && editingId == None && persisted == Some(vehicles)
      ensures old(editingId).None? && old(PlatesUnique(vehicles)) ==> PlatesUnique(vehicles)
    {
      if editingId.Some? {
        var resolved := ResolveBrand(brands, values);
        outcome := Updated(editingId.value);
        vehicles := UpdateById(vehicles, editingId.value, resolved);
        persisted := Some(vehicles);
        editingId := None;
      } else {
        if PlateTaken(vehicles, values.placa) {
          outcome := DuplicatePlate;
          return;
        }
        var resolved := ResolveBrand(brands, values);
        var newVehicle := Vehicle(now, resolved);
        if PlatesUnique(vehicles) {
          AppendKeepsPlatesUnique(vehicles, newVehicle);
        }
        vehicles := vehicles + [newVehicle];
        persisted := Some(vehicles);
        outcome := Created(now);
      }
    }

    /** Submitting the form: the validator runs first, and only accepted values reach the handler. */
    method Submit(input: FormValues, currentYear: int, brands: Option<seq<Brand>>, now: int) returns (outcome: SubmitOutcome)
      requires Valid()
      modifies this
      ensures Valid()
      ensures Validate(input, currentYear).Rejected? ==>
        outcome == Invalid(Validate(input, currentYear).fields) && unchanged(this)
      ensures Validate(input, currentYear).Accepted? ==>
        var values := Validate(input, currentYear).values;
        && (old(editingId).Some? ==>
              && outcome == Updated(old(editingId).value)
              && vehicles == UpdateById(old(vehicles), old(editingId).value, ResolveBrand(brands, values))
              && editingId == None && persisted == Some(vehicles))
        && (old(editingId).None? && PlateTaken(old(vehicles), values.placa) ==>
              && outcome == DuplicatePlate
              && vehicles == old(vehicles) && persisted == old(persisted) && editingId == old(editingId))
        && (old(editingId).None? && !PlateTaken(old(vehicles), values.placa) ==>
              && outcome == Created(now)
              && vehicles == old(vehicles) + [Vehicle(now, ResolveBrand(brands, values))]
              && editingId == None && persisted == Some(vehicles))
      ensures old(AllValid(vehicles, currentYear)) ==> AllValid(vehicles, currentYear)
      ensures old(editingId).None? && old(PlatesUnique(vehicles)) ==> PlatesUnique(vehicles)
    {
      var checked := Validate(input, currentYear);
      if checked.Rejected? {
        outcome := Invalid(checked.fields);
        return;
      }
      var values := checked.values;
      ValidateIdempotent(input, currentYear);
      ResolveBrandKeepsValid(brands, values, currentYear);
      ghost var before := vehicles;
      ghost var wasEditing := editingId;
      var resolved := ResolveBrand(brands, values);
      outcome := SubmitValues(values, brands, now);
      if AllValid(before, currentYear) {
        if wasEditing.Some? {
          UpdateKeepsValid(before, wasEditing.value, resolved, currentYear);
        } else if outcome.Created? {
          AppendKeepsValid(before, Vehicle(now, resolved), currentYear);
        }
      }
    }

    /** `handleEdit`: load the first record with the id into the form and remember the id; an unknown id does nothing. */
    method Edit(id: int) returns (form: Option<FormValues>)
      requires Valid()
      modifies this`editingId
      ensures Valid()
      ensures FindById(vehicles, id).Some? ==> editingId == Some(id) && form == Some(FindById(vehicles, id).value.values)
      ensures FindById(vehicles, id).None? ==> editingId == old(editingId) && form == None
    {
      var found := FindById(vehicles, id);
      if found.Some? {
        form := Some(found.value.values);
        editingId := Some(id);
      } else {
        form := None;
      }
    }

    /** `handleDelete`: with confirmation, drop every record with the id and write the list back; without it, nothing. */
    method Delete(id: int, confirmed: bool)
      requires Valid()
      modifies this
      ensures Valid()
      ensures confirmed ==>
        && vehicles == RemoveById(old(vehicles), id)
        && persisted == Some(vehicles) && editingId == old(editingId)
      ensures !confirmed ==> unchanged(this)
      ensures old(PlatesUnique(vehicles)) ==> PlatesUnique(vehicles)
      ensures forall y :: old(AllValid(vehicles, y)) ==> AllValid(vehicles, y)
    {
      if confirmed {
        ghost var before := vehicles;
        vehicles := RemoveById(vehicles, id);
        persisted := Some(vehicles);
        if PlatesUnique(before) {
          RemoveKeepsPlatesUnique(before, id);
        }
        forall y | AllValid(before, y) ensures AllValid(vehicles, y) {
          RemoveKeepsValid(before, id, y);
        }
      }
    }
  }

  // ---------------------------------------------------------------- a session

  /**
   * A caller's view through the contracts above: an accepted form is stored
   * with the plate upper-cased and the brand label resolved, and a second
   * submit of the same plate is refused.
   */
  method CreateSession(input: FormValues, catalog: seq<Brand>, k: nat)
    requires Validate(input, 2025).Accepted?
    requires IsFirstBrand(catalog, input.marcaId, k)
  {
    var store := new VehicleStore.Load(None);
    var stored := input.(placa := ToUpper(input.placa), marca := catalog[k].nome);

    var outcome := store.Submit(input, 2025, Some(catalog), 1000);
    assert outcome == Created(1000);
    assert store.vehicles == [Vehicle(1000, stored)];
    assert store.persisted == Some(store.vehicles);

    assert store.vehicles[0].values.placa == ToUpper(input.placa);
    outcome := store.Submit(input.(cor := "Preto"), 2025, Some(catalog), 2000);
    assert outcome == DuplicatePlate;
    assert store.vehicles == [Vehicle(1000, stored)];
  }

  /** Editing a stored record, declining a delete, then confirming it. */
  method EditDeleteSession(stored: FormValues)
    requires Validate(stored, 2025) == Accepted(stored)
  {
    var store := new VehicleStore.Load(Some([Vehicle(1000, stored)]));
    var form := store.Edit(1000);
    assert form == Some(stored);
    var edited := stored.(cor := "Preto");
    MarcaUnconstrained(stored, stored.marca, 2025);
    assert Validate(edited, 2025) == Accepted(edited);
    var outcome := store.Submit(edited, 2025, None, 3000);
    assert outcome == Updated(1000);
    assert store.vehicles == [Vehicle(1000, edited)];
    assert store.editingId == None;

    store.Delete(1000, false);
    assert store.vehicles == [Vehicle(1000, edited)];
    store.Delete(1000, true);
    assert store.vehicles == [] && store.persisted == Some([]);
  }
}
