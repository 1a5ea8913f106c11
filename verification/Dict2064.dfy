/**
 * The dictionaries of values (Dict2064.h, Dict2064.cpp). The tag heap keeps a 20-bit key in
 * place of a value. A dictionary takes 2^20 values; the next different value opens another
 * one, and keys start over. A key is decoded with the dictionary picked by a cycle, not with
 * the one it was given from.
 *
 * Proved: keys decode to their values at every cycle if and only if no more than 2^20
 * different values came. The rest of the project keeps the values themselves in place of keys.
 */
module Dictionaries {
  import opened TagHistory

  const DICT2064_MAXKEY: nat := 1048575

  /** A dictionary: its first cycle and its values, each at the index that is its key. */
  datatype Dictionary = Dictionary(cycle: nat, values: seq<nat>)

  /** A value that came in a cycle. */
  datatype Addition = Addition(value: nat, cycle: nat)

  ghost predicate Distinct(s: seq<nat>) {
    forall i, j :: 0 <= i < j < |s| ==> s[i] != s[j]
  }

  /** Every dictionary but the last is full, and no value comes twice in one. */
  ghost predicate DictsOk(ds: seq<Dictionary>) {
    && ds != []
    && ds[0].cycle == 0
    && (forall k :: 0 <= k < |ds| ==> Distinct(ds[k].values))
    && (forall k :: 0 <= k < |ds| - 1 ==> |ds[k].values| == DICT2064_MAXKEY + 1)
    && |ds[|ds| - 1].values| <= DICT2064_MAXKEY + 1
    && (|ds| > 1 ==> ds[|ds| - 1].values != [])
  }

  /** The hash knows exactly the values of the current dictionary, under their keys. */
  ghost predicate HashOk(values: seq<nat>, hash: map<nat, nat>) {
    && (forall v <- hash :: hash[v] < |values| && values[hash[v]] == v)
    && (forall k :: 0 <= k < |values| ==> values[k] in hash)
  }

  function IndexOf(s: seq<nat>, v: nat): (k: nat)
    requires v in s
    ensures k < |s| && s[k] == v
  {
    if s[0] == v then 0 else 1 + IndexOf(s[1..], v)
  }

  /** The dictionaries after a value came in a cycle. */
  function Keyed(ds: seq<Dictionary>, v: nat, c: nat): seq<Dictionary>
    requires ds != []
  {
    var last := ds[|ds| - 1];
    if v in last.values then ds
    else if |last.values| > DICT2064_MAXKEY then ds + [Dictionary(c, [v])]
    else ds[|ds| - 1 := last.(values := last.values + [v])]
  }

  /** The key a value gets. */
  function KeyFor(ds: seq<Dictionary>, v: nat): nat
    requires ds != []
  {
    var values := ds[|ds| - 1].values;
    if v in values then IndexOf(values, v) else if |values| > DICT2064_MAXKEY then 0 else |values|
  }

  /** The number of the last dictionary before the first that starts behind the cycle. */
  function Picked(ds: seq<Dictionary>, c: nat): (k: nat)
    requires ds != [] && ds[0].cycle == 0
    ensures k < |ds| && (forall j :: 0 <= j <= k ==> ds[j].cycle <= c)
    ensures k + 1 < |ds| ==> ds[k + 1].cycle > c
  {
    PickedFrom(ds, c, 1) - 1
  }

  /** The first dictionary from k on that starts behind the cycle. */
  function PickedFrom(ds: seq<Dictionary>, c: nat, k: nat): (n: nat)
    requires k <= |ds| && (forall j :: 0 <= j < k ==> ds[j].cycle <= c)
    ensures k <= n <= |ds| && (forall j :: 0 <= j < n ==> ds[j].cycle <= c)
    ensures n < |ds| ==> ds[n].cycle > c
    decreases |ds| - k
  {
    if k == |ds| || ds[k].cycle > c then k else PickedFrom(ds, c, k + 1)
  }

  /** What a key is decoded to at a cycle; None where nothing was stored. */
  function Decoded(ds: seq<Dictionary>, key: nat, c: nat): Option<nat>
    requires ds != [] && ds[0].cycle == 0
  {
    var values := ds[Picked(ds, c)].values;
    if key < |values| then Some(values[key]) else None
  }

  class Dict2064 {
    var dicvec: seq<Dictionary>
    var currentDict: map<nat, nat>

    ghost predicate Valid() reads this {
      dicvec != [] && DictsOk(dicvec) && HashOk(dicvec[|dicvec| - 1].values, currentDict)
    }

    constructor ()
      ensures Valid() && dicvec == [Dictionary(0, [])]
    {
      dicvec := [Dictionary(0, [])];
      currentDict := map[];
    }

    /** Gives the key of a value, from a new dictionary when the current one is full. */
    method GetKeyFor(value: nat, cycle: nat) returns (key: nat)
      requires Valid() && |Keyed(dicvec, value, cycle)| <= 128
      modifies this
      ensures Valid()
      ensures dicvec == Keyed(old(dicvec), value, cycle) && key == KeyFor(old(dicvec), value)
      ensures var last := old(dicvec)[|old(dicvec)| - 1];
              if value in last.values then dicvec == old(dicvec) && key < |last.values| && last.values[key] == value
              else if |last.values| < 0x10_0000 then
                && key == |last.values|
                && dicvec == old(dicvec)[|old(dicvec)| - 1 := last.(values := last.values + [value])]
              else key == 0 && dicvec == old(dicvec) + [Dictionary(cycle, [value])]
    {
      hide HashOk, DictsOk;
      ghost var was := dicvec;
      ghost var values := was[|was| - 1].values;
      KeyedOk(was, value, cycle);
      HashKnows(was, currentDict, value);
      if value in currentDict {
        key := currentDict[value];
      } else {
        if |dicvec[|dicvec| - 1].values| > DICT2064_MAXKEY {
          dicvec := dicvec + [Dictionary(cycle, [])];
          currentDict := map[];
        }
        var last := dicvec[|dicvec| - 1];
        key := |last.values|;
        HashMore(last.values, currentDict, value);
        dicvec := dicvec[|dicvec| - 1 := last.(values := last.values + [value])];
        currentDict := currentDict[value := key];
        assert [] + [value] == [value];
        assert |values| > DICT2064_MAXKEY ==> dicvec == was + [Dictionary(cycle, [value])];
      }
    }

    /** Decodes a key with the dictionary of the cycle. */
    method GetValueByCycle(key: nat, cycle: nat) returns (r: Option<nat>)
      requires Valid()
      ensures r == Decoded(dicvec, key, cycle)
    {
      var dictNum := 0;
      var fnd := false;
      while !fnd && dictNum < |dicvec|
        invariant 0 <= dictNum <= |dicvec|
        invariant fnd ==> dictNum > 1 && dicvec[dictNum - 1].cycle > cycle
        invariant forall j :: 0 <= j < (if fnd then dictNum - 1 else dictNum) ==> dicvec[j].cycle <= cycle
        decreases |dicvec| - dictNum, !fnd
      {
        fnd := dicvec[dictNum].cycle > cycle;
        dictNum := dictNum + 1;
      }
      dictNum := dictNum - 1;
      if fnd {
        dictNum := dictNum - 1;
      }
      assert dictNum == Picked(dicvec, cycle);
      var values := dicvec[dictNum].values;
      r := if key < |values| then Some(values[key]) else None;
    }
  }

  lemma HashKnows(ds: seq<Dictionary>, hash: map<nat, nat>, v: nat)
    requires DictsOk(ds) && HashOk(ds[|ds| - 1].values, hash)
    ensures v in hash <==> v in ds[|ds| - 1].values
    ensures v in hash ==> hash[v] == IndexOf(ds[|ds| - 1].values, v) <= DICT2064_MAXKEY
  {
  }

  lemma HashMore(values: seq<nat>, hash: map<nat, nat>, v: nat)
    requires v !in values && (HashOk(values, hash) || (values == [] && hash == map[]))
    ensures HashOk(values + [v], hash[v := |values|])
  {
  }

  lemma KeyedOk(ds: seq<Dictionary>, v: nat, c: nat)
    requires DictsOk(ds)
    ensures DictsOk(Keyed(ds, v, c))
  {
    var out := Keyed(ds, v, c);
    forall k | 0 <= k < |out|
      ensures Distinct(out[k].values)
    {
      assert k < |ds| ==> Distinct(ds[k].values);
    }
  }

  /** The dictionaries after all additions. */
  function After(adds: seq<Addition>): (ds: seq<Dictionary>)
    ensures ds != []
  {
    if adds == [] then [Dictionary(0, [])]
    else
      var a := adds[|adds| - 1];
      Keyed(After(adds[..|adds| - 1]), a.value, a.cycle)
  }

  /** The key the i-th addition got. */
  function KeyOf(adds: seq<Addition>, i: nat): nat
    requires i < |adds|
  {
    KeyFor(After(adds[..i]), adds[i].value)
  }

  /** The values that came. */
  function Values(adds: seq<Addition>): set<nat> {
    set i: nat | i < |adds| :: adds[i].value
  }

  /** Every key that was given decodes to its value, whatever the cycle. */
  ghost predicate AllDecode(adds: seq<Addition>)
    requires After(adds)[0].cycle == 0
  {
    forall i: nat, c: nat :: i < |adds| ==> Decoded(After(adds), KeyOf(adds, i), c) == Some(adds[i].value)
  }

  lemma {:induction false} AfterOk(adds: seq<Addition>)
    ensures DictsOk(After(adds))
  {
    if adds != [] {
      var a := adds[|adds| - 1];
      AfterOk(adds[..|adds| - 1]);
      KeyedOk(After(adds[..|adds| - 1]), a.value, a.cycle);
    }
  }

  /** The dictionaries hold values that came. */
  ghost predicate OnlyCame(ds: seq<Dictionary>, vs: set<nat>) {
    forall k, j :: 0 <= k < |ds| && 0 <= j < |ds[k].values| ==> ds[k].values[j] in vs
  }

  /** A dictionary starts with a value that the one before it does not have. */
  ghost predicate Renewed(ds: seq<Dictionary>) {
    forall k, j :: 0 <= k < |ds| && j == k + 1 < |ds| && ds[j].values != [] ==> ds[j].values[0] !in ds[k].values
  }

  /** Some addition of the value got key 0. */
  ghost predicate CameFirst(adds: seq<Addition>, v: nat) {
    exists i: nat :: i < |adds| && adds[i].value == v && KeyOf(adds, i) == 0
  }

  ghost predicate AllFirst(ds: seq<Dictionary>, adds: seq<Addition>) {
    forall k :: 0 <= k < |ds| && ds[k].values != [] ==> CameFirst(adds, ds[k].values[0])
  }

  lemma KeyedCame(ds: seq<Dictionary>, v: nat, c: nat, vs: set<nat>)
    requires ds != [] && OnlyCame(ds, vs)
    ensures OnlyCame(Keyed(ds, v, c), vs + {v})
  {
    var out := Keyed(ds, v, c);
    forall k, j | 0 <= k < |out| && 0 <= j < |out[k].values|
      ensures out[k].values[j] in vs + {v}
    {
      assert k < |ds| && j < |ds[k].values| ==> out[k].values[j] == ds[k].values[j];
    }
  }

  lemma KeyedRenewed(ds: seq<Dictionary>, v: nat, c: nat)
    requires DictsOk(ds) && Renewed(ds)
    ensures Renewed(Keyed(ds, v, c))
  {
  }

  lemma {:induction false} AfterCame(adds: seq<Addition>)
    ensures OnlyCame(After(adds), Values(adds)) && Renewed(After(adds))
  {
    if adds != [] {
      var front, a := adds[..|adds| - 1], adds[|adds| - 1];
      AfterOk(front);
      AfterCame(front);
      ValuesMore(adds);
      KeyedCame(After(front), a.value, a.cycle, Values(front));
      KeyedRenewed(After(front), a.value, a.cycle);
    }
  }

  lemma FirstMore(adds: seq<Addition>, v: nat)
    requires adds != [] && CameFirst(adds[..|adds| - 1], v)
    ensures CameFirst(adds, v)
  {
    var front := adds[..|adds| - 1];
    var i: nat :| i < |front| && front[i].value == v && KeyOf(front, i) == 0;
    assert front[..i] == adds[..i];
    assert adds[i].value == v && KeyOf(adds, i) == 0;
  }

  lemma {:induction false} AfterFirst(adds: seq<Addition>)
    ensures AllFirst(After(adds), adds)
  {
    hide Keyed;
    if adds != [] {
      var n := |adds| - 1;
      var front, a := adds[..n], adds[n];
      var was, ds := After(front), After(adds);
      AfterFirst(front);
      forall k | 0 <= k < |ds| && ds[k].values != []
        ensures CameFirst(adds, ds[k].values[0])
      {
        KeyedFirst(was, a.value, a.cycle, k);
        if k < |was| && was[k].values != [] {
          FirstMore(adds, was[k].values[0]);
        } else {
          assert KeyOf(adds, n) == 0;
        }
      }
    }
  }

  /** A dictionary's first value stays, or it is the one that came and its key is 0. */
  lemma KeyedFirst(ds: seq<Dictionary>, v: nat, c: nat, k: nat)
    requires ds != []
    requires k < |Keyed(ds, v, c)| && Keyed(ds, v, c)[k].values != []
    ensures if k < |ds| && ds[k].values != [] then Keyed(ds, v, c)[k].values[0] == ds[k].values[0]
            else Keyed(ds, v, c)[k].values[0] == v && KeyFor(ds, v) == 0
  {
  }

  lemma ValuesMore(adds: seq<Addition>)
    requires adds != []
    ensures Values(adds) == Values(adds[..|adds| - 1]) + {adds[|adds| - 1].value}
  {
    forall v | v in Values(adds)
      ensures v in Values(adds[..|adds| - 1]) + {adds[|adds| - 1].value}
    {
      var i: nat :| i < |adds| && adds[i].value == v;
      assert i < |adds| - 1 ==> adds[..|adds| - 1][i].value == v;
    }
    forall v | v in Values(adds[..|adds| - 1])
      ensures v in Values(adds)
    {
      var i: nat :| i < |adds| - 1 && adds[..|adds| - 1][i].value == v;
      assert adds[i].value == v;
    }
  }

  /** As long as there is one dictionary, it holds exactly the values that came, and every
      key leads to its value. */
  lemma {:induction false} OnlyDictionary(adds: seq<Addition>)
    requires |After(adds)| == 1
    ensures forall i: nat :: i < |adds| ==>
              KeyOf(adds, i) < |After(adds)[0].values| && After(adds)[0].values[KeyOf(adds, i)] == adds[i].value
  {
    if adds != [] {
      hide KeyFor, Keyed, KeyOf;
      var n := |adds| - 1;
      var front := adds[..n];
      KeysStay(adds);
      KeyedKey(After(front), adds[n].value, adds[n].cycle);
      var was, values := After(front)[0].values, After(adds)[0].values;
      OnlyDictionary(front);
      forall i: nat | i < |adds|
        ensures KeyOf(adds, i) < |values| && values[KeyOf(adds, i)] == adds[i].value
      {
        assert i < n ==> KeyOf(front, i) == KeyOf(adds, i);
      }
    }
  }

  /** What was added stays under its key. */
  lemma KeysStay(adds: seq<Addition>)
    requires adds != []
    ensures var n := |adds| - 1;
            && (forall i :: 0 <= i < n ==> KeyOf(adds[..n], i) == KeyOf(adds, i))
            && KeyOf(adds, n) == KeyFor(After(adds[..n]), adds[n].value)
            && |After(adds[..n])| <= |After(adds)|
  {
    var n := |adds| - 1;
    assert forall i :: 0 <= i < n ==> adds[..n][..i] == adds[..i];
  }

  lemma KeyedKey(ds: seq<Dictionary>, v: nat, c: nat)
    requires |ds| == 1 && |Keyed(ds, v, c)| == 1
    ensures KeyFor(ds, v) < |Keyed(ds, v, c)[0].values| && Keyed(ds, v, c)[0].values[KeyFor(ds, v)] == v
    ensures ds[0].values <= Keyed(ds, v, c)[0].values
  {
  }

  lemma {:induction false} DistinctSize(s: seq<nat>, vs: set<nat>)
    requires Distinct(s) && forall v :: v in s ==> v in vs
    ensures |s| <= |vs|
    ensures (forall v :: v in vs ==> v in s) ==> |s| == |vs|
  {
    if s == [] {
      assert (forall v :: v in vs ==> v in s) ==> vs == {};
    } else {
      var n := |s| - 1;
      assert s == s[..n] + [s[n]];
      assert forall v :: v in s[..n] ==> v in vs - {s[n]};
      DistinctSize(s[..n], vs - {s[n]});
      if forall v :: v in vs ==> v in s {
        assert forall v :: v in vs - {s[n]} ==> v in s[..n];
      }
    }
  }

  /** A second dictionary is opened exactly when more than 2^20 different values came. */
  lemma OneDictionary(adds: seq<Addition>)
    ensures |After(adds)| == 1 <==> |Values(adds)| <= 0x10_0000
  {
    hide After, Values, KeyOf;
    var ds, vs := After(adds), Values(adds);
    AfterOk(adds);
    AfterCame(adds);
    var first := ds[0].values;
    if |ds| > 1 {
      var other := ds[1].values[0];
      DistinctSize(first, vs - {other});
      assert other in vs;
    } else {
      OnlyDictionary(adds);
      forall v | v in vs
        ensures v in first
      {
        ValuesCame(adds, v);
      }
      DistinctSize(first, vs);
    }
  }

  lemma ValuesCame(adds: seq<Addition>, v: nat)
    requires v in Values(adds)
    ensures exists i: nat :: i < |adds| && adds[i].value == v
  {
  }

  /** Keys decode to their values at every cycle if and only if at most 2^20 different values
      came: a key means what it meant as long as there is one dictionary. */
  lemma KeysDecode(adds: seq<Addition>)
    ensures After(adds)[0].cycle == 0
    ensures AllDecode(adds) <==> |Values(adds)| <= 0x10_0000
  {
    hide After, Values, KeyOf;
    var ds := After(adds);
    AfterOk(adds);
    OneDictionary(adds);
    if |ds| == 1 {
      OnlyDictionary(adds);
    } else {
      AfterCame(adds);
      AfterFirst(adds);
      var k := |ds| - 2;
      assert ds[k].values != [];
      assert CameFirst(adds, ds[k].values[0]);
      var i: nat :| i < |adds| && adds[i].value == ds[k].values[0] && KeyOf(adds, i) == 0;
      var c := Behind(ds);
      assert Picked(ds, c) == k + 1;
      assert Decoded(ds, 0, c) == Some(ds[k + 1].values[0]);
    }
  }

  /** A cycle at which every dictionary has started. */
  function Behind(ds: seq<Dictionary>): (c: nat)
    ensures forall k :: 0 <= k < |ds| ==> ds[k].cycle <= c
  {
    if ds == [] then 0
    else
      var c := Behind(ds[1..]);
      if ds[0].cycle > c then ds[0].cycle else c
  }

  /** The values 0, 1, ..., n - 1 in one cycle. */
  function Ramp(n: nat, c: nat): (adds: seq<Addition>)
    ensures |adds| == n
  {
    if n == 0 then [] else Ramp(n - 1, c) + [Addition(n - 1, c)]
  }

  function UpTo(n: nat): (s: seq<nat>)
    ensures |s| == n && forall i :: 0 <= i < n ==> s[i] == i
  {
    seq(n, i => i)
  }

  lemma {:induction false} RampKeyed(n: nat, c: nat)
    requires n <= DICT2064_MAXKEY + 1
    ensures After(Ramp(n, c)) == [Dictionary(0, UpTo(n))]
  {
    if n > 0 {
      hide UpTo, Keyed;
      RampKeyed(n - 1, c);
      RampKeys(n - 1, c);
      assert Ramp(n, c)[..n - 1] == Ramp(n - 1, c);
      assert Ramp(n, c)[n - 1] == Addition(n - 1, c);
      assert After(Ramp(n, c)) == Keyed([Dictionary(0, UpTo(n - 1))], n - 1, c);
    }
  }

  lemma RampKeys(n: nat, c: nat)
    requires n <= DICT2064_MAXKEY
    ensures Keyed([Dictionary(0, UpTo(n))], n, c) == [Dictionary(0, UpTo(n + 1))]
  {
    assert n !in UpTo(n);
    assert UpTo(n) + [n] == UpTo(n + 1);
  }

  /** After 2^20 + 1 values in one cycle, the key of the first decodes, in its own cycle, to
      the last. */
  lemma CrowdedDictionary(c: nat)
    ensures var adds := Ramp(0x10_0001, c);
            && adds[0] == Addition(0, c) && KeyOf(adds, 0) == 0
            && After(adds)[0].cycle == 0
            && Decoded(After(adds), 0, c) == Some(0x10_0000)
  {
    var n := DICT2064_MAXKEY + 1;
    var adds := Ramp(n + 1, c);
    hide Ramp;
    RampKeyed(n, c);
    RampAt(n + 1, c, 0);
    RampAt(n + 1, c, n);
    assert adds[..n] == Ramp(n, c) by { RampFront(n, c); }
    var full := UpTo(n);
    assert n !in full;
    assert After(adds) == [Dictionary(0, full), Dictionary(c, [n])];
  }

  lemma RampFront(n: nat, c: nat)
    ensures Ramp(n + 1, c)[..n] == Ramp(n, c)
  {
  }

  lemma {:induction false} RampAt(n: nat, c: nat, i: nat)
    requires i < n
    ensures Ramp(n, c)[i] == Addition(i, c)
  {
    if i < n - 1 {
      RampAt(n - 1, c, i);
    }
  }
}
