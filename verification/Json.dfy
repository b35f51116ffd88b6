/**
 JSON values with order-preserving objects, as serde_json builds them with `preserve_order`:
 an object is a sequence of members, inserting replaces in place or appends, and removing a
 member moves the last one into the hole.
 */
module Json {
  import opened Wrappers

  /** Integers serde_json keeps exact: those of i64 and of u64. */
  type JsonInt = n: int | -0x8000_0000_0000_0000 <= n < 0x1_0000_0000_0000_0000

  type Members = seq<Member>

  datatype Member = Member(key: string, value: Json)

  datatype Json =
    | Null
    | Bool(b: bool)
    | Num(n: JsonInt)
    | Str(s: string)
    | Arr(items: seq<Json>)
    | Obj(members: Members)
  {
    /** Value::as_str after Value::get: the text under a key of an object. */
    function TextAt(key: string): Option<string> {
      if Obj? then
        match Get(members, key)
        case Some(Str(s)) => Some(s)
        case _ => None
      else None
    }

    /** Value::as_object after Value::get. */
    function ObjectAt(key: string): Option<Members> {
      if Obj? then
        match Get(members, key)
        case Some(Obj(ms)) => Some(ms)
        case _ => None
      else None
    }
  }

  /** The first position of a key, or the number of members when it is absent. */
  function IndexOf(ms: Members, key: string): (i: nat)
    ensures i <= |ms|
    ensures i < |ms| ==> ms[i].key == key
    ensures forall j | 0 <= j < i :: ms[j].key != key
  {
    if ms == [] || ms[0].key == key then 0 else 1 + IndexOf(ms[1..], key)
  }

  predicate Has(ms: Members, key: string) {
    IndexOf(ms, key) < |ms|
  }

  function Get(ms: Members, key: string): Option<Json> {
    if Has(ms, key) then Some(ms[IndexOf(ms, key)].value) else None
  }

  function Insert(ms: Members, key: string, v: Json): Members {
    if Has(ms, key) then ms[IndexOf(ms, key) := Member(key, v)] else ms + [Member(key, v)]
  }

  /** Map::remove under preserve_order: the last member takes the removed one's place. */
  function SwapRemove(ms: Members, key: string): Members {
    if Has(ms, key) then ms[IndexOf(ms, key) := ms[|ms| - 1]][..|ms| - 1] else ms
  }

  /** Removal that keeps the order of the other members (Map::shift_remove). */
  function OrderedRemove(ms: Members, key: string): Members {
    var i := IndexOf(ms, key);
    if i < |ms| then ms[..i] + ms[i + 1..] else ms
  }

  ghost predicate DistinctKeys(ms: Members) {
    forall i, j | 0 <= i < j < |ms| :: ms[i].key != ms[j].key
  }

  /** What a parsed document satisfies: no object, at any depth, repeats a key. */
  ghost predicate Valid(v: Json) {
    match v
    case Arr(items) => forall i | 0 <= i < |items| :: Valid(items[i])
    case Obj(ms) => DistinctKeys(ms) && forall i | 0 <= i < |ms| :: Valid(ms[i].value)
    case _ => true
  }

  lemma InsertValid(ms: Members, key: string, v: Json)
    requires Valid(Obj(ms)) && Valid(v)
    ensures Valid(Obj(Insert(ms, key, v)))
  {
  }

  lemma IndexIsUnique(ms: Members, i: nat)
    requires DistinctKeys(ms) && i < |ms|
    ensures IndexOf(ms, ms[i].key) == i && Get(ms, ms[i].key) == Some(ms[i].value)
  {
  }

  /** Looking up a key finds its member, wherever it is, and nothing else. */
  lemma GetIff(ms: Members, key: string, v: Json)
    requires DistinctKeys(ms)
    ensures Get(ms, key) == Some(v) <==> Member(key, v) in ms
  {
    if i :| 0 <= i < |ms| && ms[i] == Member(key, v) {
      IndexIsUnique(ms, i);
    }
  }

  /** Insertion leaves every other member where it is: the key's own place, or the end, is written. */
  lemma InsertPlaces(ms: Members, key: string, v: Json)
    requires DistinctKeys(ms)
    ensures (forall i | 0 <= i < |ms| :: ms[i].key != key) ==> Insert(ms, key, v) == ms + [Member(key, v)]
    ensures (exists i | 0 <= i < |ms| :: ms[i].key == key) ==>
      |Insert(ms, key, v)| == |ms| &&
      forall i | 0 <= i < |ms| :: Insert(ms, key, v)[i] == if ms[i].key == key then Member(key, v) else ms[i]
  {
    if i :| 0 <= i < |ms| && ms[i].key == key {
      IndexIsUnique(ms, i);
    }
  }

  /** Removal moves the last member into the hole and leaves every other where it is. */
  lemma SwapRemovePlaces(ms: Members, i: nat)
    requires DistinctKeys(ms) && i < |ms|
    ensures var out := SwapRemove(ms, ms[i].key);
      && |out| == |ms| - 1
      && forall j | 0 <= j < |out| :: out[j] == if j == i then ms[|ms| - 1] else ms[j]
  {
    IndexIsUnique(ms, i);
  }

  lemma GetAfterInsert(ms: Members, key: string, v: Json, k: string)
    ensures Get(Insert(ms, key, v), k) == if k == key then Some(v) else Get(ms, k)
    ensures Has(Insert(ms, key, v), k) <==> k == key || Has(ms, k)
  {
    var out := Insert(ms, key, v);
    assert forall j | 0 <= j < |ms| :: out[j].key == ms[j].key;
    var i, o := IndexOf(ms, k), IndexOf(out, k);
    assert i < |ms| ==> out[i].key == k;
    assert o < |ms| ==> ms[o].key == k;
    if k != key {
      assert i < |ms| ==> i == o;
    } else {
      assert out[i] == Member(key, v);
      assert o == i;
    }
  }

  /** As a key-value map, an object without a member is the same however it was removed. */
  lemma GetAfterSwapRemove(ms: Members, key: string, k: string)
    requires DistinctKeys(ms)
    ensures Get(SwapRemove(ms, key), k) == if k == key then None else Get(ms, k)
    ensures DistinctKeys(SwapRemove(ms, key))
  {
    var out, r := SwapRemove(ms, key), IndexOf(ms, key);
    if Has(ms, key) {
      forall j | 0 <= j < |out| ensures out[j] == ms[if j == r then |ms| - 1 else j] && out[j].key != key {
      }
      assert DistinctKeys(out);
      var i := IndexOf(ms, k);
      if k != key && i < |ms| {
        var j := if i == |ms| - 1 then r else i;
        assert out[j] == ms[i];
        IndexIsUnique(out, j);
      }
    }
  }

  /** Swap-removal keeps the order exactly when the removed member is last or second to last. */
  lemma SwapRemoveKeepsOrder(ms: Members, key: string)
    requires DistinctKeys(ms) && Has(ms, key)
    ensures SwapRemove(ms, key) == OrderedRemove(ms, key) <==> |ms| - 2 <= IndexOf(ms, key)
  {
    var i := IndexOf(ms, key);
    var swapped, ordered := SwapRemove(ms, key), OrderedRemove(ms, key);
    if i < |ms| - 2 {
      assert swapped[i] == ms[|ms| - 1] && ordered[i] == ms[i + 1];
    } else {
      assert swapped == ordered;
    }
  }

  /** serde_json's Map, which the credential code edits in place. */
  class ObjectMap {
    var members: Members

    constructor (ms: Members)
      ensures members == ms
    {
      members := ms;
    }

    /** Insertion into the index map: the position of the key is searched, then written. */
    method InsertEntry(key: string, v: Json)
      modifies this
      ensures members == Insert(old(members), key, v)
    {
      var i := Position(key);
      if i < |members| {
        members := members[i := Member(key, v)];
      } else {
        members := members + [Member(key, v)];
      }
    }

    method RemoveEntry(key: string)
      modifies this
      ensures members == SwapRemove(old(members), key)
    {
      var i := Position(key);
      if i < |members| {
        members := members[i := members[|members| - 1]][..|members| - 1];
      }
    }

    method Position(key: string) returns (i: nat)
      ensures i == IndexOf(members, key)
    {
      i := 0;
      while i < |members| && members[i].key != key
        invariant i <= |members|
        invariant forall j | 0 <= j < i :: members[j].key != key
      {
        i := i + 1;
      }
    }
  }
}
