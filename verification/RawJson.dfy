/**
 What the parser does with repeated keys, at every depth. RawParse reads the same texts but keeps
 every member where it stands; the parser gives that value with the repeated keys of each object
 merged, the last value at the first position.
 */
module RawJson {
  import opened Wrappers
  import opened Json
  import opened JsonText

  // ----- reading without merging -----

  /** A value as it stands in the text; numbers, strings and words are read as by ParseValue. */
  function RawValue(t: string): (r: Option<(Json, string)>)
    ensures r.Some? ==> |r.value.1| < |t|
    decreases |t|, 0
  {
    var u := SkipSpace(t);
    if u != "" && u[0] == '[' then
      var w := SkipSpace(u[1..]);
      if w != "" && w[0] == ']' then Some((Arr([]), w[1..])) else RawItems(w, [])
    else if u != "" && u[0] == '{' then
      var w := SkipSpace(u[1..]);
      if w != "" && w[0] == '}' then Some((Obj([]), w[1..])) else RawMembers(w, [])
    else
      ParseValue(t)
  }

  function RawItems(t: string, done: seq<Json>): (r: Option<(Json, string)>)
    ensures r.Some? ==> |r.value.1| < |t|
    decreases |t|, 1
  {
    var (v, u) :- RawValue(t);
    var w := SkipSpace(u);
    if w == "" then None
    else if w[0] == ',' then RawItems(w[1..], done + [v])
    else if w[0] == ']' then Some((Arr(done + [v]), w[1..]))
    else None
  }

  function RawMember(t: string): (r: Option<(Member, string)>)
    ensures r.Some? ==> |r.value.1| < |t|
    decreases |t|, 1
  {
    var u := SkipSpace(t);
    if u == "" || u[0] != '\"' then None
    else
      var (key, w) :- ParseString(u[1..]);
      var x := SkipSpace(w);
      if x == "" || x[0] != ':' then None
      else
        var (v, y) :- RawValue(x[1..]);
        Some((Member(key, v), y))
  }

  function RawMembers(t: string, done: Members): (r: Option<(Json, string)>)
    ensures r.Some? ==> |r.value.1| < |t|
    decreases |t|, 2
  {
    var (m, u) :- RawMember(t);
    var w := SkipSpace(u);
    if w == "" then None
    else if w[0] == ',' then RawMembers(w[1..], done + [m])
    else if w[0] == '}' then Some((Obj(done + [m]), w[1..]))
    else None
  }

  /** One value and nothing but white space after it, repeated keys and all. */
  function RawParse(t: string): Option<Json> {
    var (v, u) :- RawValue(t);
    if SkipSpace(u) == "" then Some(v) else None
  }

  // ----- merging -----

  /** The map serde_json builds from a list of members: insertion of each, in order. */
  function Collect(done: Members, ms: Members): Members
    decreases ms, 1
  {
    if ms == [] then done
    else Collect(Insert(done, ms[0].key, Normalize(ms[0].value)), ms[1..])
  }

  function NormalizeItems(items: seq<Json>): (r: seq<Json>)
    ensures |r| == |items|
    decreases items, 1
  {
    if items == [] then [] else [Normalize(items[0])] + NormalizeItems(items[1..])
  }

  function Normalize(v: Json): Json
    decreases v, 0
  {
    match v
    case Arr(items) => Arr(NormalizeItems(items))
    case Obj(ms) => Obj(Collect([], ms))
    case _ => v
  }

  lemma {:induction false} NormalizeItemsAt(items: seq<Json>, i: nat)
    requires i < |items|
    ensures NormalizeItems(items)[i] == Normalize(items[i])
    decreases |items|
  {
    if i > 0 {
      NormalizeItemsAt(items[1..], i - 1);
    }
  }

  lemma NormalizeItemsSnoc(items: seq<Json>, v: Json)
    ensures NormalizeItems(items + [v]) == NormalizeItems(items) + [Normalize(v)]
  {
    var all := items + [v];
    forall i | 0 <= i < |all| ensures NormalizeItems(all)[i] == (NormalizeItems(items) + [Normalize(v)])[i] {
      NormalizeItemsAt(all, i);
      if i < |items| {
        NormalizeItemsAt(items, i);
      }
    }
  }

  lemma {:induction false} CollectSnoc(done: Members, ms: Members, m: Member)
    ensures Collect(done, ms + [m]) == Insert(Collect(done, ms), m.key, Normalize(m.value))
    decreases ms
  {
    var all := ms + [m];
    if ms == [] {
      assert all[0] == m && all[1..] == [];
    } else {
      assert all[0] == ms[0] && all[1..] == ms[1..] + [m];
      CollectSnoc(Insert(done, ms[0].key, Normalize(ms[0].value)), ms[1..], m);
    }
  }

  // ----- parsing is reading and then merging -----

  function Merge(r: Option<(Json, string)>): Option<(Json, string)> {
    match r
    case Some((v, u)) => Some((Normalize(v), u))
    case None => None
  }

  lemma {:induction false} ValueIsMerged(t: string)
    ensures ParseValue(t) == Merge(RawValue(t))
    decreases |t|, 0
  {
    var u := SkipSpace(t);
    if u != "" && u[0] == '[' {
      ItemsAreMerged(SkipSpace(u[1..]), []);
    } else if u != "" && u[0] == '{' {
      MembersAreMerged(SkipSpace(u[1..]), []);
    }
  }

  lemma {:induction false} ItemsAreMerged(t: string, done: seq<Json>)
    ensures ParseItems(t, NormalizeItems(done)) == Merge(RawItems(t, done))
    decreases |t|, 1
  {
    ValueIsMerged(t);
    if RawValue(t).Some? {
      var (v, u) := RawValue(t).value;
      var w := SkipSpace(u);
      NormalizeItemsSnoc(done, v);
      if w != "" && w[0] == ',' {
        ItemsAreMerged(w[1..], done + [v]);
      }
    }
  }

  lemma {:induction false} MemberIsMerged(t: string)
    ensures ParseMember(t) ==
      match RawMember(t)
      case Some((m, u)) => Some((Member(m.key, Normalize(m.value)), u))
      case None => None
    decreases |t|, 1
  {
    var u := SkipSpace(t);
    if u != "" && u[0] == '\"' && ParseString(u[1..]).Some? {
      var x := SkipSpace(ParseString(u[1..]).value.1);
      if x != "" && x[0] == ':' {
        ValueIsMerged(x[1..]);
      }
    }
  }

  lemma {:induction false} MembersAreMerged(t: string, done: Members)
    ensures ParseMembers(t, Collect([], done)) == Merge(RawMembers(t, done))
    decreases |t|, 2
  {
    MemberIsMerged(t);
    if RawMember(t).Some? {
      var (m, u) := RawMember(t).value;
      var w := SkipSpace(u);
      CollectSnoc([], done, m);
      if w != "" && w[0] == ',' {
        MembersAreMerged(w[1..], done + [m]);
      }
    }
  }

  /** For every text: what the parser returns is what the text says, with repeated keys merged. */
  lemma ParseIsMergedRaw(t: string)
    ensures Parse(t) == match RawParse(t) case Some(v) => Some(Normalize(v)) case None => None
  {
    ValueIsMerged(t);
  }

  // ----- what merging means -----

  /** The last position of a key that is present. */
  ghost function LastIndexOf(ms: Members, key: string): (i: nat)
    requires Has(ms, key)
    ensures i < |ms| && ms[i].key == key
    ensures forall j | i < j < |ms| :: ms[j].key != key
  {
    var n := |ms| - 1;
    if ms[n].key == key then n
    else
      assert ms[..n][IndexOf(ms, key)].key == key;
      LastIndexOf(ms[..n], key)
  }

  ghost predicate SameKeys(ms: Members, out: Members) {
    forall k: string :: Has(out, k) == Has(ms, k)
  }

  /** The keys that survive are in the order in which they first occurred. */
  ghost predicate FirstPositionWins(ms: Members, out: Members) {
    forall i, j | 0 <= i < j < |out| :: IndexOf(ms, out[i].key) < IndexOf(ms, out[j].key)
  }

  /**
   A value without repeated keys that says what the raw one says: in every object, at every depth,
   the same keys, each once, in the order of their first occurrence and with their last value.
   */
  ghost predicate Merged(raw: Json, out: Json)
    decreases raw
  {
    match raw
    case Arr(items) =>
      && out.Arr? && |out.items| == |items|
      && forall i | 0 <= i < |items| :: Merged(items[i], out.items[i])
    case Obj(ms) =>
      && out.Obj? && SameKeys(ms, out.members) && FirstPositionWins(ms, out.members)
      && forall i | 0 <= i < |out.members| ::
           Has(ms, out.members[i].key) && Merged(ms[LastIndexOf(ms, out.members[i].key)].value, out.members[i].value)
    case _ => out == raw
  }

  lemma IndexOfPrefix(ms: Members, m: Member, key: string)
    ensures Has(ms, key) ==> IndexOf(ms + [m], key) == IndexOf(ms, key)
    ensures !Has(ms, key) && m.key == key ==> IndexOf(ms + [m], key) == |ms|
    ensures Has(ms + [m], key) <==> Has(ms, key) || m.key == key
  {
    var all := ms + [m];
    assert all[|ms|] == m && forall j | 0 <= j < |ms| :: all[j] == ms[j];
    var i, a := IndexOf(ms, key), IndexOf(all, key);
    assert i < |ms| ==> all[i].key == key;
    assert a < |ms| ==> ms[a].key == key;
  }

  lemma LastIndexSnoc(ms: Members, m: Member, k: string)
    requires Has(ms + [m], k)
    ensures k == m.key ==> LastIndexOf(ms + [m], k) == |ms|
    ensures k != m.key ==> Has(ms, k) && (ms + [m])[LastIndexOf(ms + [m], k)] == ms[LastIndexOf(ms, k)]
  {
    var all := ms + [m];
    assert all[|ms|] == m && forall j | 0 <= j < |ms| :: all[j] == ms[j];
    IndexOfPrefix(ms, m, k);
    if k != m.key {
      var i, l := LastIndexOf(ms, k), LastIndexOf(all, k);
      assert ms[l].key == k && all[i].key == k;
    }
  }

  /** Every key with its last value. */
  ghost predicate LastValueWins(ms: Members, out: Members) {
    forall k: string | Has(ms, k) :: Get(out, k) == Some(Normalize(ms[LastIndexOf(ms, k)].value))
  }

  lemma SameKeysStep(front: Members, m: Member, out: Members)
    requires SameKeys(front, out)
    ensures SameKeys(front + [m], Insert(out, m.key, Normalize(m.value)))
  {
    var ms, out' := front + [m], Insert(out, m.key, Normalize(m.value));
    forall k: string ensures Has(out', k) == Has(ms, k) {
      GetAfterInsert(out, m.key, Normalize(m.value), k);
      IndexOfPrefix(front, m, k);
      assert Has(out, k) == Has(front, k);
    }
  }

  lemma LastValueStep(front: Members, m: Member, out: Members)
    requires LastValueWins(front, out)
    ensures LastValueWins(front + [m], Insert(out, m.key, Normalize(m.value)))
  {
    var ms, out' := front + [m], Insert(out, m.key, Normalize(m.value));
    forall k: string | Has(ms, k) ensures Get(out', k) == Some(Normalize(ms[LastIndexOf(ms, k)].value)) {
      GetAfterInsert(out, m.key, Normalize(m.value), k);
      LastIndexSnoc(front, m, k);
    }
  }

  lemma FirstPositionStep(front: Members, m: Member, out: Members)
    requires FirstPositionWins(front, out) && SameKeys(front, out)
    ensures FirstPositionWins(front + [m], Insert(out, m.key, Normalize(m.value)))
  {
    var ms, out' := front + [m], Insert(out, m.key, Normalize(m.value));
    forall i, j | 0 <= i < j < |out'|
      ensures IndexOf(ms, out'[i].key) < IndexOf(ms, out'[j].key)
    {
      assert Has(front, out[i].key) by {
        assert out[i].key == out'[i].key;
        assert Has(out, out[i].key);
      }
      IndexOfPrefix(front, m, out'[i].key);
      IndexOfPrefix(front, m, out'[j].key);
      if j < |out| {
        assert out[j].key == out'[j].key;
        assert Has(out, out[j].key) && Has(front, out[j].key);
      } else {
        assert Has(front, m.key) == Has(out, m.key);
      }
    }
  }

  lemma {:induction false} CollectMerges(ms: Members)
    ensures var out := Collect([], ms); SameKeys(ms, out) && LastValueWins(ms, out) && FirstPositionWins(ms, out)
  {
    if ms != [] {
      var n := |ms| - 1;
      var front, m := ms[..n], ms[n];
      assert ms == front + [m];
      CollectMerges(front);
      CollectSnoc([], front, m);
      SameKeysStep(front, m, Collect([], front));
      LastValueStep(front, m, Collect([], front));
      FirstPositionStep(front, m, Collect([], front));
    }
  }

  /** Where keys are in the order of first occurrence, none is repeated. */
  lemma OrderedKeysAreDistinct(ms: Members, out: Members)
    requires FirstPositionWins(ms, out)
    ensures DistinctKeys(out)
  {
    forall i, j | 0 <= i < j < |out| ensures out[i].key != out[j].key {
      assert IndexOf(ms, out[i].key) < IndexOf(ms, out[j].key);
    }
  }

  lemma {:induction false} NormalizeIsMerged(raw: Json)
    ensures Merged(raw, Normalize(raw))
    decreases raw
  {
    if raw.Arr? {
      forall i | 0 <= i < |raw.items| ensures Merged(raw.items[i], NormalizeItems(raw.items)[i]) {
        NormalizeItemsAt(raw.items, i);
        NormalizeIsMerged(raw.items[i]);
      }
    } else if raw.Obj? {
      var ms, out := raw.members, Collect([], raw.members);
      CollectMerges(ms);
      OrderedKeysAreDistinct(ms, out);
      forall i | 0 <= i < |out|
        ensures Has(ms, out[i].key) && Merged(ms[LastIndexOf(ms, out[i].key)].value, out[i].value)
      {
        IndexIsUnique(out, i);
        assert Has(out, out[i].key) && Has(ms, out[i].key);
        NormalizeIsMerged(ms[LastIndexOf(ms, out[i].key)].value);
      }
    }
  }

  /** Two lists of keys for the same members. */
  ghost predicate Rivals(ms: Members, a: Members, b: Members) {
    SameKeys(ms, a) && SameKeys(ms, b) && FirstPositionWins(ms, a) && FirstPositionWins(ms, b)
  }

  /** The first n keys are the same in both. */
  ghost predicate SameStart(a: Members, b: Members, n: nat) {
    n <= |a| && n <= |b| && forall j | 0 <= j < n :: a[j].key == b[j].key
  }

  lemma NextKeyNotLater(ms: Members, a: Members, b: Members, i: nat)
    requires Rivals(ms, a, b) && i < |a| && SameStart(a, b, i)
    ensures i < |b| && Has(ms, a[i].key) && IndexOf(ms, b[i].key) <= IndexOf(ms, a[i].key)
  {
    var key := a[i].key;
    assert Has(a, key);
    assert Has(ms, key) && Has(b, key);
    var p := IndexOf(b, key);
    OrderedKeysAreDistinct(ms, a);
    assert forall j | 0 <= j < i :: b[j].key == a[j].key != key;
    assert p >= i;
    assert p > i ==> IndexOf(ms, b[i].key) < IndexOf(ms, b[p].key);
  }

  /** The order of first occurrence leaves one choice for the list of keys. */
  lemma {:induction false} SameKeysUpTo(ms: Members, a: Members, b: Members, n: nat)
    requires Rivals(ms, a, b) && n <= |a|
    ensures SameStart(a, b, n)
  {
    if n > 0 {
      SameKeysUpTo(ms, a, b, n - 1);
      NextKeyNotLater(ms, a, b, n - 1);
      NextKeyNotLater(ms, b, a, n - 1);
    }
  }

  lemma {:induction false} MergedIsUnique(raw: Json, a: Json, b: Json)
    requires Merged(raw, a) && Merged(raw, b)
    ensures a == b
    decreases raw
  {
    if raw.Arr? {
      forall i | 0 <= i < |raw.items| ensures a.items[i] == b.items[i] {
        MergedIsUnique(raw.items[i], a.items[i], b.items[i]);
      }
      assert a.items == b.items;
    } else if raw.Obj? {
      var ms, x, y := raw.members, a.members, b.members;
      SameKeysUpTo(ms, x, y, |x|);
      SameKeysUpTo(ms, y, x, |y|);
      forall i: nat | i < |x| ensures x[i] == y[i] {
        MergedIsUnique(ms[LastIndexOf(ms, x[i].key)].value, x[i].value, y[i].value);
      }
      assert x == y;
    }
  }

  /**
   However a document is written, with white space, escaped and repeated keys at any depth: it is
   accepted exactly when it can be read, and the result is the one value that is merged from it.
   */
  lemma RepeatedKeysInText(t: string, v: Json)
    ensures Parse(t) == Some(v) <==> RawParse(t).Some? && Merged(RawParse(t).value, v)
  {
    ParseIsMergedRaw(t);
    if RawParse(t).Some? {
      var raw := RawParse(t).value;
      NormalizeIsMerged(raw);
      if Merged(raw, v) {
        MergedIsUnique(raw, v, Normalize(raw));
      }
    }
  }
}
