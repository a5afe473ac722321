/**
 * The tea store: the collection of tea records kept in `data.json`, looked up
 * by name and extended by a save that rejects a duplicate name or id.
 *
 * The file is modelled by the sequence of records it holds; a file that does
 * not exist reads as the empty sequence.
 */
module Saver {
  import opened Wrappers
  import Decimal

  /** One record of the collection. */
  datatype Tea = Tea(id: int, name: string, description: string)

  /** Why a save was refused. */
  datatype SaveError = DuplicateName(name: string) | DuplicateId(id: int)

  const NamePrefix: string := "Tea with name "
  const IdPrefix: string := "Tea with id "
  const Suffix: string := " already exists"

  /** The text of the error a refused save throws. */
  function Message(e: SaveError): string {
    match e
    case DuplicateName(name) => NamePrefix + name + Suffix
    case DuplicateId(id) => IdPrefix + Decimal.IntToString(id) + Suffix
  }

  /**
   * The message is a fixed prefix for its kind, then the colliding value (the
   * name, or the id in decimal), then " already exists".
   */
  lemma MessageCarriesValue(e: SaveError)
    ensures var m := Message(e);
      && |m| >= |Suffix| && m[|m| - |Suffix|..] == Suffix
      && (e.DuplicateName? ==>
            |m| == |NamePrefix| + |e.name| + |Suffix| &&
            m[..|NamePrefix|] == NamePrefix && m[|NamePrefix|..|m| - |Suffix|] == e.name)
      && (e.DuplicateId? ==>
            |m| == |IdPrefix| + |Decimal.IntToString(e.id)| + |Suffix| &&
            m[..|IdPrefix|] == IdPrefix && m[|IdPrefix|..|m| - |Suffix|] == Decimal.IntToString(e.id))
  {
  }

  /** The character after the shared "Tea with " tells the two kinds apart. */
  lemma MessageKind(e: SaveError)
    ensures |Message(e)| > 9 && Message(e)[9] == if e.DuplicateName? then 'n' else 'i'
  {
    MessageCarriesValue(e);
  }

  /** The message names the colliding value: different errors read differently. */
  lemma MessageInjective(e1: SaveError, e2: SaveError)
    requires Message(e1) == Message(e2)
    ensures e1 == e2
  {
    MessageKind(e1);
    MessageKind(e2);
    MessageCarriesValue(e1);
    MessageCarriesValue(e2);
    if e1.DuplicateId? {
      var m := Message(e1);
      assert Decimal.IntToString(e1.id) == m[|IdPrefix|..|m| - |Suffix|] == Decimal.IntToString(e2.id);
      Decimal.IntToStringInjective(e1.id, e2.id);
    }
  }

  // Specification predicates over a collection.

  ghost predicate NameTaken(teas: seq<Tea>, name: string) {
    exists i | 0 <= i < |teas| :: teas[i].name == name
  }

  ghost predicate IdTaken(teas: seq<Tea>, id: int) {
    exists i | 0 <= i < |teas| :: teas[i].id == id
  }

  ghost predicate DistinctNames(teas: seq<Tea>) {
    forall i, j | 0 <= i < j < |teas| :: teas[i].name != teas[j].name
  }

  ghost predicate DistinctIds(teas: seq<Tea>) {
    forall i, j | 0 <= i < j < |teas| :: teas[i].id != teas[j].id
  }

  /** The invariant every successful save keeps: no shared name, no shared id. */
  ghost predicate Unique(teas: seq<Tea>) {
    DistinctNames(teas) && DistinctIds(teas)
  }

  /** The first record whose name is exactly `name`, or None. */
  function FindByName(teas: seq<Tea>, name: string): (r: Option<Tea>)
    ensures r.Some? <==> NameTaken(teas, name)
    ensures r.Some? ==> exists i | 0 <= i < |teas| ::
      teas[i] == r.value && r.value.name == name && forall j | 0 <= j < i :: teas[j].name != name
  {
    if teas == [] then None
    else if teas[0].name == name then Some(teas[0])
    else
      var r := FindByName(teas[1..], name);
      assert forall j | 0 <= j < |teas| - 1 :: teas[1..][j] == teas[j + 1];
      r
  }

  /** Whether some record has id `id`. */
  function ContainsId(teas: seq<Tea>, id: int): (b: bool)
    ensures b <==> IdTaken(teas, id)
  {
    if teas == [] then false
    else if teas[0].id == id then true
    else
      var b := ContainsId(teas[1..], id);
      assert forall j | 0 <= j < |teas| - 1 :: teas[1..][j] == teas[j + 1];
      b
  }

  /**
   * Saving `tea` into the collection `teas`: the collection with `tea`
   * appended, or the error that refuses it. The error names the colliding
   * value; when both name and id collide either error may be reported.
   */
  function Save(teas: seq<Tea>, tea: Tea): (r: Result<seq<Tea>, SaveError>)
    ensures r.Ok? <==> !NameTaken(teas, tea.name) && !IdTaken(teas, tea.id)
    ensures r.Ok? ==> r.value == teas + [tea]
    ensures r.Err? ==>
      || (r.error == DuplicateName(tea.name) && NameTaken(teas, tea.name))
      || (r.error == DuplicateId(tea.id) && IdTaken(teas, tea.id))
  {
    if FindByName(teas, tea.name).Some? then Err(DuplicateName(tea.name))
    else if ContainsId(teas, tea.id) then Err(DuplicateId(tea.id))
    else Ok(teas + [tea])
  }

  /** A successful save keeps names and ids distinct. */
  lemma SavePreservesUnique(teas: seq<Tea>, tea: Tea)
    requires Unique(teas)
    requires Save(teas, tea).Ok?
    ensures Unique(Save(teas, tea).value)
  {
  }

  /** After a successful save, looking up the saved name gives back the saved record. */
  lemma SaveThenFind(teas: seq<Tea>, tea: Tea)
    requires Save(teas, tea).Ok?
    ensures FindByName(Save(teas, tea).value, tea.name) == Some(tea)
  {
    var s := Save(teas, tea).value;
    var r := FindByName(s, tea.name);
    assert s[|teas|] == tea;
    var i :| 0 <= i < |s| && s[i] == r.value && r.value.name == tea.name &&
      forall j | 0 <= j < i :: s[j].name != tea.name;
  }

  /** Appending a record does not change the lookup of any other name. */
  lemma {:induction false} FindByNameAppend(teas: seq<Tea>, tea: Tea, name: string)
    requires name != tea.name
    ensures FindByName(teas + [tea], name) == FindByName(teas, name)
  {
    if teas != [] {
      assert (teas + [tea])[1..] == teas[1..] + [tea];
      FindByNameAppend(teas[1..], tea, name);
    }
  }

  /** A successful save leaves the lookup of every other name as it was. */
  lemma SaveKeepsOtherLookups(teas: seq<Tea>, tea: Tea, name: string)
    requires Save(teas, tea).Ok?
    requires name != tea.name
    ensures FindByName(Save(teas, tea).value, name) == FindByName(teas, name)
  {
    FindByNameAppend(teas, tea, name);
  }

  /** In a collection with distinct names, each stored record is found by its name. */
  lemma FindStored(teas: seq<Tea>, k: nat)
    requires DistinctNames(teas)
    requires k < |teas|
    ensures FindByName(teas, teas[k].name) == Some(teas[k])
  {
  }

  /** The collection after saving each of `batch` in turn, a refused save leaving it as it was. */
  function SaveAll(teas: seq<Tea>, batch: seq<Tea>): (r: seq<Tea>)
    ensures teas <= r
    ensures |r| <= |teas| + |batch|
    decreases |batch|
  {
    if batch == [] then teas
    else
      var next := match Save(teas, batch[0]) case Ok(s) => s case Err(_) => teas;
      SaveAll(next, batch[1..])
  }

  /** Any sequence of saves keeps names and ids distinct. */
  lemma {:induction false} SaveAllPreservesUnique(teas: seq<Tea>, batch: seq<Tea>)
    requires Unique(teas)
    ensures Unique(SaveAll(teas, batch))
    decreases |batch|
  {
    if batch != [] {
      var next := match Save(teas, batch[0]) case Ok(s) => s case Err(_) => teas;
      if Save(teas, batch[0]).Ok? {
        SavePreservesUnique(teas, batch[0]);
      }
      SaveAllPreservesUnique(next, batch[1..]);
    }
  }

  /** A collection that starts absent has distinct names and ids whatever is saved into it. */
  lemma SaveAllFromAbsent(batch: seq<Tea>)
    ensures Unique(SaveAll([], batch))
  {
    SaveAllPreservesUnique([], batch);
  }

  /** The store backed by `data.json`. */
  class TeaStore {
    /** The records the file holds; an absent file holds none. */
    var teas: seq<Tea>

    ghost predicate Valid()
      reads this
    {
      Unique(teas)
    }

    /** A store whose file holds `contents` (the empty sequence for an absent file). */
    constructor (contents: seq<Tea>)
      ensures teas == contents
    {
      teas := contents;
    }

    /** The record named `name`, or None; None whenever the file is absent. */
    function GetTeaByName(name: string): (r: Option<Tea>)
      reads this
      ensures teas == [] ==> r == None
      ensures r.Some? ==> r.value in teas && r.value.name == name
      ensures r.Some? ==> exists i | 0 <= i < |teas| ::
        teas[i] == r.value && forall j | 0 <= j < i :: teas[j].name != name
      ensures r.None? ==> !NameTaken(teas, name)
      ensures DistinctNames(teas) ==> forall i | 0 <= i < |teas| && teas[i].name == name :: r == Some(teas[i])
    {
      FindByName(teas, name)
    }

    /**
     * Load the collection, refuse `tea` if its name or its id is already
     * stored, otherwise append it and rewrite the whole collection.
     * A refused save returns its error and leaves the file untouched.
     */
    method SaveTea(tea: Tea) returns (err: Option<SaveError>)
      modifies this
      ensures Save(old(teas), tea) == if err.None? then Ok(teas) else Err(err.value)
      ensures err.Some? ==> teas == old(teas)
      ensures old(Valid()) ==> Valid()
      ensures err.None? ==> GetTeaByName(tea.name) == Some(tea)
    {
      var current := teas;
      if FindByName(current, tea.name).Some? {
        return Some(DuplicateName(tea.name));
      }
      if ContainsId(current, tea.id) {
        return Some(DuplicateId(tea.id));
      }
      if Unique(current) {
        SavePreservesUnique(current, tea);
      }
      SaveThenFind(current, tea);
      teas := current + [tea];
      err := None;
    }

    /**
     * A new id: one more than the largest stored id (or 1 for a store with
     * none), so it is positive and no stored record has it.
     */
    method GenerateNewTeaId() returns (id: int)
      ensures id > 0
      ensures forall i | 0 <= i < |teas| :: teas[i].id < id
    {
      var max := 0;
      var k := 0;
      while k < |teas|
        invariant 0 <= k <= |teas|
        invariant max >= 0
        invariant forall i | 0 <= i < k :: teas[i].id <= max
      {
        if teas[k].id > max {
          max := teas[k].id;
        }
        k := k + 1;
      }
      id := max + 1;
    }
  }

  // The test cases of the store, replayed against the model.

  /** Looking up a name in an absent store gives None. */
  method ScenarioAbsentLookup() {
    var absent := new TeaStore([]);
    assert absent.GetTeaByName("nonexistent") == None;
  }

  /** Looking up a stored name gives the stored record. */
  method ScenarioStoredLookup() {
    var green := Tea(1, "Green Tea", "Healthy tea");
    var stored := new TeaStore([green]);
    assert stored.GetTeaByName("Green Tea") == Some(green);
  }

  /** Saving into an empty store leaves exactly the new record. */
  method ScenarioSaveNew() {
    var black := Tea(2, "Black Tea", "Strong tea");
    var empty := new TeaStore([]);
    var err := empty.SaveTea(black);
    assert err == None && empty.teas == [black];
  }

  /** Saving a second "Green Tea" is refused with its name. */
  method ScenarioDuplicateName() {
    var green := Tea(1, "Green Tea", "Healthy tea");
    var store := new TeaStore([green]);
    assert store.teas[0].name == "Green Tea";
    var err := store.SaveTea(Tea(2, "Green Tea", "Another green tea"));
    assert err == Some(DuplicateName("Green Tea")) && store.teas == [green];
  }

  /** Saving another tea with id 1 is refused with its id. */
  method ScenarioDuplicateId() {
    var green := Tea(1, "Green Tea", "Healthy tea");
    var store := new TeaStore([green]);
    assert store.teas[0].id == 1;
    var black := Tea(1, "Black Tea", "Strong tea");
    assert !NameTaken([green], black.name) by {
      assert green.name[0] != black.name[0];
    }
    var err := store.SaveTea(black);
    assert err == Some(DuplicateId(1)) && store.teas == [green];
  }

  /** The text the duplicate-name refusal throws. */
  method ScenarioNameMessage() {
    assert Message(DuplicateName("Green Tea")) == "Tea with name Green Tea already exists";
  }

  /** The text the duplicate-id refusal throws. */
  method ScenarioIdMessage() {
    assert Decimal.IntToString(1) == "1";
    assert Message(DuplicateId(1)) == "Tea with id 1 already exists";
  }

  /** A generated id is positive. */
  method ScenarioNewId() {
    var absent := new TeaStore([]);
    var id := absent.GenerateNewTeaId();
    assert id > 0;
  }
}
