/**
 * sortJson of the records repository: payloads and disclosed data are compared as JSON text
 * after sorting object keys. A JSON object is a list of members in insertion order; what it
 * means is the value with that order forgotten.
 */
module CanonicalJson {
  import opened Wrappers
  import opened Orders
  import opened RecordModel

  datatype Member = Member(key: string, value: Json)

  datatype Json =
    | JNull
    | JText(text: string)
    | JNumber(number: real)
    | JBoolean(flag: bool)
    | JArray(items: seq<Json>)
    | JObject(members: seq<Member>)

  /** No object repeats a key. */
  predicate WellFormed(j: Json) {
    match j
    case JArray(items) => forall i | 0 <= i < |items| :: WellFormed(items[i])
    case JObject(members) =>
      && (forall i | 0 <= i < |members| :: WellFormed(members[i].value))
      && (forall i, k | 0 <= i < k < |members| :: members[i].key != members[k].key)
    case _ => true
  }

  function Keys(members: seq<Member>): set<string> {
    set i | 0 <= i < |members| :: members[i].key
  }

  function IndexOf(members: seq<Member>, key: string): (i: nat)
    requires key in Keys(members)
    ensures i < |members| && members[i].key == key
  {
    if members[0].key == key then 0
    else
      assert key in Keys(members[1..]) by {
        var i :| 0 <= i < |members| && members[i].key == key;
        assert members[1..][i - 1].key == key;
      }
      1 + IndexOf(members[1..], key)
  }

  function Meaning(j: Json): Value {
    match j
    case JNull => Null
    case JText(t) => Text(t)
    case JNumber(n) => Number(n)
    case JBoolean(b) => Boolean(b)
    case JArray(items) => Array(seq(|items|, i requires 0 <= i < |items| => Meaning(items[i])))
    case JObject(members) => Object(map k | k in Keys(members) :: Meaning(members[IndexOf(members, k)].value))
  }

  ghost function SortedKeys(members: seq<Member>): (ks: seq<string>)
    ensures Lists(ks, Keys(members), StringLess)
    ensures |ks| == |Keys(members)|
  {
    StringLessTotal(Keys(members));
    SortedLists(Keys(members), StringLess);
    Sorted(Keys(members), StringLess)
  }

  ghost function SortJson(j: Json): Json {
    match j
    case JArray(items) => JArray(seq(|items|, i requires 0 <= i < |items| => SortJson(items[i])))
    case JObject(members) =>
      var ks := SortedKeys(members);
      JObject(seq(|ks|, i requires 0 <= i < |ks| =>
        assert ks[i] in ks;
        Member(ks[i], SortJson(members[IndexOf(members, ks[i])].value))))
    case _ => j
  }

  lemma SortedKeysOnce(members: seq<Member>, i: nat, k: nat)
    requires i < k < |SortedKeys(members)|
    ensures SortedKeys(members)[i] != SortedKeys(members)[k]
  {
    var ks := SortedKeys(members);
    AscendingAt(ks, StringLess, i, k);
    StringTrichotomy(ks[i], ks[i]);
  }

  /** Sorting keeps an object's keys and sorts the value under each of them. */
  lemma SortedMembers(members: seq<Member>, k: string)
    ensures Keys(SortJson(JObject(members)).members) == Keys(members)
    ensures k in Keys(members) ==>
      var sorted := SortJson(JObject(members)).members;
      sorted[IndexOf(sorted, k)].value == SortJson(members[IndexOf(members, k)].value)
  {
    var ks, sorted := SortedKeys(members), SortJson(JObject(members)).members;
    forall key | key in Keys(members) ensures key in Keys(sorted) {
      assert key in ks;
      var i :| 0 <= i < |ks| && ks[i] == key;
      assert sorted[i].key == key;
    }
    forall key | key in Keys(sorted) ensures key in Keys(members) {
      var i :| 0 <= i < |sorted| && sorted[i].key == key;
      assert ks[i] in ks;
    }
  }

  /** Sorting changes the order of members and nothing else. */
  lemma {:induction false} SortKeepsMeaning(j: Json)
    ensures Meaning(SortJson(j)) == Meaning(j)
  {
    match j
    case JArray(items) =>
      forall i | 0 <= i < |items|
        ensures Meaning(SortJson(items[i])) == Meaning(items[i])
      {
        SortKeepsMeaning(items[i]);
      }
    case JObject(members) =>
      forall i | 0 <= i < |members| ensures Kept(members[i].value) { SortKeepsMeaning(members[i].value); }
      ObjectKept(members);
    case _ =>
  }

  ghost predicate Kept(j: Json) {
    Meaning(SortJson(j)) == Meaning(j)
  }

  lemma ObjectKept(members: seq<Member>)
    requires forall i | 0 <= i < |members| :: Kept(members[i].value)
    ensures Kept(JObject(members))
  {
    var sorted := SortJson(JObject(members)).members;
    var was, now := Meaning(JObject(members)), Meaning(JObject(sorted));
    forall k ensures Lookup(now.members, k) == Lookup(was.members, k) {
      SortedMembers(members, k);
      ObjectMeaning(members, k);
      ObjectMeaning(sorted, k);
      assert k in Keys(members) ==> Kept(members[IndexOf(members, k)].value);
    }
    SameByLookup(now.members, was.members);
  }

  lemma ObjectMeaning(members: seq<Member>, k: string)
    ensures Meaning(JObject(members)).Object?
    ensures Lookup(Meaning(JObject(members)).members, k) ==
      if k in Keys(members) then Some(Meaning(members[IndexOf(members, k)].value)) else None
  {
  }

  lemma {:induction false} SameMeaningSameSorted(a: Json, b: Json)
    requires Meaning(a) == Meaning(b)
    ensures SortJson(a) == SortJson(b)
  {
    match a
    case JArray(items) =>
      assert Meaning(a).items == Meaning(b).items;
      forall i | 0 <= i < |items| ensures SortJson(items[i]) == SortJson(b.items[i]) {
        assert Meaning(a).items[i] == Meaning(b).items[i];
        SameMeaningSameSorted(items[i], b.items[i]);
      }
    case JObject(members) =>
      assert Meaning(a).members.Keys == Keys(members) && Meaning(b).members.Keys == Keys(b.members);
      forall k | k in Keys(members)
        ensures SortJson(members[IndexOf(members, k)].value) == SortJson(b.members[IndexOf(b.members, k)].value)
      {
        assert Meaning(a).members[k] == Meaning(b).members[k];
        SameMeaningSameSorted(members[IndexOf(members, k)].value, b.members[IndexOf(b.members, k)].value);
      }
      assert SortedKeys(members) == SortedKeys(b.members);
      forall i | 0 <= i < |SortedKeys(members)| ensures SortJson(a).members[i] == SortJson(b).members[i] {
        assert SortedKeys(members)[i] in SortedKeys(members);
      }
      assert SortJson(a).members == SortJson(b).members;
    case _ =>
  }

  /** Two payloads have the same canonical form exactly when they denote the same value. */
  lemma CanonicalIff(a: Json, b: Json)
    ensures SortJson(a) == SortJson(b) <==> Meaning(a) == Meaning(b)
  {
    SortKeepsMeaning(a);
    SortKeepsMeaning(b);
    if Meaning(a) == Meaning(b) { SameMeaningSameSorted(a, b); }
  }

  /** The canonical form repeats no key and is its own canonical form. */
  lemma CanonicalIsNormal(j: Json)
    ensures WellFormed(SortJson(j))
    ensures SortJson(SortJson(j)) == SortJson(j)
  {
    CanonicalWellFormed(j);
    SortKeepsMeaning(j);
    CanonicalIff(SortJson(j), j);
  }

  lemma {:induction false} CanonicalWellFormed(j: Json)
    ensures WellFormed(SortJson(j))
  {
    match j
    case JArray(items) =>
      forall i | 0 <= i < |items| ensures WellFormed(SortJson(items[i])) { CanonicalWellFormed(items[i]); }
    case JObject(members) =>
      var ks := SortedKeys(members);
      forall i | 0 <= i < |ks| ensures WellFormed(SortJson(j).members[i].value) {
        assert ks[i] in ks;
        CanonicalWellFormed(members[IndexOf(members, ks[i])].value);
      }
      forall i, k | 0 <= i < k < |ks| ensures ks[i] != ks[k] { SortedKeysOnce(members, i, k); }
    case _ =>
  }
}
