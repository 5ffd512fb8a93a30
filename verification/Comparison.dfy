/** get_object_item and cJSON_Compare: what two values must have in common to compare equal. */
module Comparison {
  import opened Text
  import opened Values

  // ---------- names ----------

  /** tolower in the C locale. */
  function Lower(b: Byte): Byte {
    if 65 <= b <= 90 then b + 32 else b
  }

  /** What is left of a name for the comparison of names. */
  function Fold(s: Bytes, sensitive: bool): (r: Bytes)
    ensures |r| == |s|
  {
    if sensitive then s else seq(|s|, i requires 0 <= i < |s| => Lower(s[i]))
  }

  /** One and the same byte, or a capital letter and its small letter. */
  predicate SameLetter(a: Byte, b: Byte) {
    a == b || (65 <= a <= 90 && b == a + 32) || (65 <= b <= 90 && a == b + 32)
  }

  /** Two names that the search takes for one. */
  predicate SameName(s: Bytes, t: Bytes, sensitive: bool) {
    if sensitive then s == t else |s| == |t| && forall i | 0 <= i < |s| :: SameLetter(s[i], t[i])
  }

  /** Names fold alike exactly when they are the same up to the case of the letters A to Z. */
  lemma FoldAlike(s: Bytes, t: Bytes, sensitive: bool)
    ensures Fold(s, sensitive) == Fold(t, sensitive) <==> SameName(s, t, sensitive)
  {
    if !sensitive && |s| == |t| {
      forall i | 0 <= i < |s| ensures SameLetter(s[i], t[i]) <==> Fold(s, false)[i] == Fold(t, false)[i] {
      }
    }
  }

  /** get_object_item: the index of the first member with a folded name, or the number of members. */
  function FirstMatch(ms: seq<Member>, f: Bytes, sensitive: bool): (k: nat)
    ensures k <= |ms|
    ensures k < |ms| ==> Fold(ms[k].key, sensitive) == f
    ensures forall j | 0 <= j < k :: Fold(ms[j].key, sensitive) != f
  {
    if ms == [] then 0
    else if Fold(ms[0].key, sensitive) == f then 0
    else
      var k := 1 + FirstMatch(ms[1..], f, sensitive);
      assert forall j | 0 < j < k :: ms[j] == ms[1..][j - 1];
      k
  }

  function FirstLike(ms: seq<Member>, key: Bytes, sensitive: bool): nat {
    FirstMatch(ms, Fold(key, sensitive), sensitive)
  }

  /** The search ends at the first member of the same name, or behind the last member. */
  lemma FirstLikeIs(ms: seq<Member>, key: Bytes, sensitive: bool, k: nat)
    requires k <= |ms|
    ensures FirstLike(ms, key, sensitive) == k <==>
            && (k < |ms| ==> SameName(ms[k].key, key, sensitive))
            && (forall j | 0 <= j < k :: !SameName(ms[j].key, key, sensitive))
  {
    hide Fold, SameName;
    forall j | 0 <= j < |ms|
      ensures Fold(ms[j].key, sensitive) == Fold(key, sensitive) <==> SameName(ms[j].key, key, sensitive)
    {
      FoldAlike(ms[j].key, key, sensitive);
    }
  }

  lemma FirstOf(ms: seq<Member>, i: nat, sensitive: bool)
    requires i < |ms|
    ensures FirstLike(ms, ms[i].key, sensitive) <= i
  {
  }

  // ---------- comparison ----------

  lemma {:induction false} ElemDepth(es: seq<Value>, i: nat)
    requires i < |es|
    ensures Depth(es[i]) < Depth(Array(es))
  {
    if i > 0 {
      ElemDepth(es[1..], i - 1);
    }
  }

  lemma {:induction false} MemberDepth(ms: seq<Member>, i: nat)
    requires i < |ms|
    ensures Depth(ms[i].value) < Depth(Object(ms))
  {
    if i > 0 {
      MemberDepth(ms[1..], i - 1);
    }
  }

  /** cJSON_Compare on items that are not the same item. The recursion swaps its arguments, but both shrink. */
  predicate Compare(a: Value, b: Value, sensitive: bool)
    decreases Depth(a) + Depth(b), 1
  {
    match (a, b)
    case (Null, Null) => true
    case (False, False) => true
    case (True, True) => true
    case (Number(m), Number(n)) => m == n
    case (String(s), String(t)) => s == t
    case (Raw(s), Raw(t)) => s == t
    case (Array(es), Array(fs)) =>
      |es| == |fs| && forall i | 0 <= i < |es| :: (ElemDepth(es, i); ElemDepth(fs, i); Compare(es[i], fs[i], sensitive))
    case (Object(ms), Object(ns)) =>
      && (forall i | 0 <= i < |ms| :: Matches(ms, ns, i, sensitive))
      && (forall i | 0 <= i < |ns| :: Matches(ns, ms, i, sensitive))
    case _ => false
  }

  /** Member i of the first object has a partner of its name in the second, and the two compare equal. */
  predicate Matches(ms: seq<Member>, ns: seq<Member>, i: nat, sensitive: bool)
    requires i < |ms|
    decreases Depth(Object(ms)) + Depth(Object(ns)), 0
  {
    var k := FirstLike(ns, ms[i].key, sensitive);
    k < |ns| && (MemberDepth(ms, i); MemberDepth(ns, k); Compare(ms[i].value, ns[k].value, sensitive))
  }

  /** The first member of the second object whose name is that of member i of the first compares equal to it. */
  ghost predicate Partnered(ms: seq<Member>, ns: seq<Member>, i: nat, sensitive: bool)
    requires i < |ms|
  {
    exists k | 0 <= k < |ns| ::
      && SameName(ns[k].key, ms[i].key, sensitive)
      && (forall j | 0 <= j < k :: !SameName(ns[j].key, ms[i].key, sensitive))
      && Compare(ms[i].value, ns[k].value, sensitive)
  }

  lemma MatchesByName(ms: seq<Member>, ns: seq<Member>, i: nat, sensitive: bool)
    requires i < |ms|
    ensures Matches(ms, ns, i, sensitive) <==> Partnered(ms, ns, i, sensitive)
  {
    hide Compare, SameName, FirstLike;
    var key := ms[i].key;
    if Matches(ms, ns, i, sensitive) {
      FirstLikeIs(ns, key, sensitive, FirstLike(ns, key, sensitive));
    }
    if Partnered(ms, ns, i, sensitive) {
      var k :| 0 <= k < |ns| && SameName(ns[k].key, key, sensitive)
               && (forall j | 0 <= j < k :: !SameName(ns[j].key, key, sensitive))
               && Compare(ms[i].value, ns[k].value, sensitive);
      FirstLikeIs(ns, key, sensitive, k);
    }
  }

  /** Two objects compare equal exactly when every member of either has such a partner in the other. */
  lemma CompareByName(ms: seq<Member>, ns: seq<Member>, sensitive: bool)
    ensures Compare(Object(ms), Object(ns), sensitive) <==>
            && (forall i | 0 <= i < |ms| :: Partnered(ms, ns, i, sensitive))
            && (forall i | 0 <= i < |ns| :: Partnered(ns, ms, i, sensitive))
  {
    hide Partnered, Matches;
    forall i | 0 <= i < |ms| ensures Matches(ms, ns, i, sensitive) <==> Partnered(ms, ns, i, sensitive) {
      MatchesByName(ms, ns, i, sensitive);
    }
    forall i | 0 <= i < |ns| ensures Matches(ns, ms, i, sensitive) <==> Partnered(ns, ms, i, sensitive) {
      MatchesByName(ns, ms, i, sensitive);
    }
  }

  // ---------- denotation ----------

  /** A JSON value with objects read as finite maps from folded names. */
  datatype Json =
    | JNull
    | JFalse
    | JTrue
    | JNumber(n: real)
    | JString(s: Bytes)
    | JRaw(s: Bytes)
    | JArray(elems: seq<Json>)
    | JObject(members: map<Bytes, Json>)

  ghost function Names(ms: seq<Member>, sensitive: bool): set<Bytes> {
    set i | 0 <= i < |ms| :: Fold(ms[i].key, sensitive)
  }

  /** What a value denotes; of several members with one name the first counts. */
  ghost function Denotes(v: Value, sensitive: bool): Json
    decreases v, 1
  {
    match v
    case Null => JNull
    case False => JFalse
    case True => JTrue
    case Number(n) => JNumber(n)
    case String(s) => JString(s)
    case Raw(s) => JRaw(s)
    case Array(es) => JArray(seq(|es|, i requires 0 <= i < |es| => Denotes(es[i], sensitive)))
    case Object(ms) => JObject(MembersMap(ms, sensitive))
  }

  ghost function MembersMap(ms: seq<Member>, sensitive: bool): map<Bytes, Json>
    decreases ms, 0
  {
    map f | f in Names(ms, sensitive) ::
      var k := FirstMatch(ms, f, sensitive); if k < |ms| then Denotes(ms[k].value, sensitive) else JNull
  }

  /** Members of one object whose names fold alike denote the same. */
  ghost predicate Uniform(v: Value, sensitive: bool)
    decreases v
  {
    match v
    case Array(es) => forall i | 0 <= i < |es| :: Uniform(es[i], sensitive)
    case Object(ms) =>
      forall i | 0 <= i < |ms| ::
        && Uniform(ms[i].value, sensitive)
        && Denotes(ms[i].value, sensitive) == Denotes(ms[FirstLike(ms, ms[i].key, sensitive)].value, sensitive)
    case _ => true
  }

  /** No object has two members whose names fold alike. */
  ghost predicate DistinctNames(v: Value, sensitive: bool)
    decreases v
  {
    match v
    case Array(es) => forall i | 0 <= i < |es| :: DistinctNames(es[i], sensitive)
    case Object(ms) =>
      && (forall i | 0 <= i < |ms| :: DistinctNames(ms[i].value, sensitive))
      && (forall i, j | 0 <= i < j < |ms| :: !SameName(ms[i].key, ms[j].key, sensitive))
    case _ => true
  }

  lemma MapAt(ms: seq<Member>, i: nat, sensitive: bool)
    requires i < |ms|
    ensures var f := Fold(ms[i].key, sensitive);
            var k := FirstLike(ms, ms[i].key, sensitive);
            k < |ms| && f in MembersMap(ms, sensitive)
              && MembersMap(ms, sensitive)[f] == Denotes(ms[k].value, sensitive)
  {
    FirstOf(ms, i, sensitive);
  }

  /** On all values: they compare equal exactly when they denote the same and neither contradicts itself. */
  lemma {:induction false} CompareIff(a: Value, b: Value, sensitive: bool)
    ensures Compare(a, b, sensitive) <==>
            Uniform(a, sensitive) && Uniform(b, sensitive) && Denotes(a, sensitive) == Denotes(b, sensitive)
    decreases Depth(a) + Depth(b), 3
  {
    match (a, b) {
      case (Array(es), Array(fs)) => ArraysIff(es, fs, sensitive);
      case (Object(ms), Object(ns)) => ObjectsIff(ms, ns, sensitive);
      case _ =>
    }
  }

  lemma ArraysIff(es: seq<Value>, fs: seq<Value>, sensitive: bool)
    ensures Compare(Array(es), Array(fs), sensitive) <==>
            Uniform(Array(es), sensitive) && Uniform(Array(fs), sensitive)
            && Denotes(Array(es), sensitive) == Denotes(Array(fs), sensitive)
    decreases Depth(Array(es)) + Depth(Array(fs)), 0
  {
    if |es| == |fs| {
      forall i | 0 <= i < |es|
        ensures Compare(es[i], fs[i], sensitive) <==>
                Uniform(es[i], sensitive) && Uniform(fs[i], sensitive)
                  && Denotes(es[i], sensitive) == Denotes(fs[i], sensitive)
      {
        ElemDepth(es, i);
        ElemDepth(fs, i);
        CompareIff(es[i], fs[i], sensitive);
      }
      var d, e := Denotes(Array(es), sensitive).elems, Denotes(Array(fs), sensitive).elems;
      assert forall i | 0 <= i < |es| :: d[i] == Denotes(es[i], sensitive) && e[i] == Denotes(fs[i], sensitive);
    } else {
      assert |Denotes(Array(es), sensitive).elems| != |Denotes(Array(fs), sensitive).elems|;
    }
  }

  /** One member's match, in terms of what the other object maps its name to. */
  lemma MatchesIff(ms: seq<Member>, ns: seq<Member>, i: nat, sensitive: bool)
    requires i < |ms|
    ensures var k := FirstLike(ns, ms[i].key, sensitive);
            Matches(ms, ns, i, sensitive) <==>
            && AgreesAt(ms, ns, i, sensitive) && k < |ns| && Uniform(ms[i].value, sensitive)
               && Uniform(ns[k].value, sensitive)
    ensures AgreesAt(ms, ns, i, sensitive) ==> FirstLike(ns, ms[i].key, sensitive) < |ns|
    decreases Depth(Object(ms)) + Depth(Object(ns)), 0
  {
    var f := Fold(ms[i].key, sensitive);
    var k := FirstLike(ns, ms[i].key, sensitive);
    if k < |ns| {
      MapAt(ns, k, sensitive);
      MemberDepth(ms, i);
      MemberDepth(ns, k);
      CompareIff(ms[i].value, ns[k].value, sensitive);
    } else {
      assert f !in Names(ns, sensitive);
    }
  }

  /** Every member of the first object denotes what the second maps its name to. */
  ghost predicate Agrees(ms: seq<Member>, ns: seq<Member>, sensitive: bool) {
    forall i | 0 <= i < |ms| :: AgreesAt(ms, ns, i, sensitive)
  }

  ghost predicate AgreesAt(ms: seq<Member>, ns: seq<Member>, i: nat, sensitive: bool)
    requires i < |ms|
  {
    var f := Fold(ms[i].key, sensitive);
    f in MembersMap(ns, sensitive) && Denotes(ms[i].value, sensitive) == MembersMap(ns, sensitive)[f]
  }

  /** Agreement makes an object uniform up to the uniformity of its members, and its map a part of the other's. */
  lemma AgreementIsUniform(ms: seq<Member>, ns: seq<Member>, sensitive: bool)
    requires Agrees(ms, ns, sensitive)
    ensures Consistent(ms, sensitive)
    ensures forall f | f in MembersMap(ms, sensitive) ::
              f in MembersMap(ns, sensitive) && MembersMap(ms, sensitive)[f] == MembersMap(ns, sensitive)[f]
  {
    hide Denotes;
    forall i | 0 <= i < |ms|
      ensures Denotes(ms[i].value, sensitive) == Denotes(ms[FirstLike(ms, ms[i].key, sensitive)].value, sensitive)
    {
      FirstOf(ms, i, sensitive);
      assert AgreesAt(ms, ns, i, sensitive) && AgreesAt(ms, ns, FirstLike(ms, ms[i].key, sensitive), sensitive);
    }
    forall f | f in MembersMap(ms, sensitive)
      ensures f in MembersMap(ns, sensitive) && MembersMap(ms, sensitive)[f] == MembersMap(ns, sensitive)[f]
    {
      var i :| 0 <= i < |ms| && Fold(ms[i].key, sensitive) == f;
      MapAt(ms, i, sensitive);
      assert AgreesAt(ms, ns, FirstLike(ms, ms[i].key, sensitive), sensitive);
    }
  }

  /** A uniform object agrees with every object of the same map. */
  lemma UniformAgrees(ms: seq<Member>, ns: seq<Member>, sensitive: bool)
    requires Uniform(Object(ms), sensitive) && MembersMap(ms, sensitive) == MembersMap(ns, sensitive)
    ensures Agrees(ms, ns, sensitive)
  {
    hide Denotes, MembersMap;
    forall i | 0 <= i < |ms| ensures AgreesAt(ms, ns, i, sensitive) {
      MapAt(ms, i, sensitive);
    }
  }

  ghost predicate MembersUniform(ms: seq<Member>, sensitive: bool) {
    forall i | 0 <= i < |ms| :: Uniform(ms[i].value, sensitive)
  }

  ghost predicate MatchAll(ms: seq<Member>, ns: seq<Member>, sensitive: bool) {
    forall i | 0 <= i < |ms| :: Matches(ms, ns, i, sensitive)
  }

  lemma MatchedAgree(ms: seq<Member>, ns: seq<Member>, sensitive: bool)
    requires MatchAll(ms, ns, sensitive)
    ensures Agrees(ms, ns, sensitive) && MembersUniform(ms, sensitive)
    decreases Depth(Object(ms)) + Depth(Object(ns)), 1
  {
    hide Denotes, MembersMap, AgreesAt;
    forall i | 0 <= i < |ms| ensures AgreesAt(ms, ns, i, sensitive) && Uniform(ms[i].value, sensitive) {
      MatchesIff(ms, ns, i, sensitive);
    }
  }

  lemma AgreeingMatch(ms: seq<Member>, ns: seq<Member>, sensitive: bool)
    requires Agrees(ms, ns, sensitive) && MembersUniform(ms, sensitive) && MembersUniform(ns, sensitive)
    ensures MatchAll(ms, ns, sensitive)
    decreases Depth(Object(ms)) + Depth(Object(ns)), 1
  {
    hide Denotes, MembersMap, AgreesAt;
    forall i | 0 <= i < |ms| ensures Matches(ms, ns, i, sensitive) {
      MatchesIff(ms, ns, i, sensitive);
    }
  }

  lemma CompareObjects(ms: seq<Member>, ns: seq<Member>, sensitive: bool)
    ensures Compare(Object(ms), Object(ns), sensitive) <==> MatchAll(ms, ns, sensitive) && MatchAll(ns, ms, sensitive)
  {
  }

  /** Uniformity of an object, in terms of its members and of what their names lead to. */
  ghost predicate Consistent(ms: seq<Member>, sensitive: bool) {
    forall i | 0 <= i < |ms| ::
      Denotes(ms[i].value, sensitive) == Denotes(ms[FirstLike(ms, ms[i].key, sensitive)].value, sensitive)
  }

  lemma UniformObject(ms: seq<Member>, sensitive: bool)
    ensures Uniform(Object(ms), sensitive) <==> MembersUniform(ms, sensitive) && Consistent(ms, sensitive)
  {
    hide Denotes;
  }

  lemma ObjectsIff(ms: seq<Member>, ns: seq<Member>, sensitive: bool)
    ensures Compare(Object(ms), Object(ns), sensitive) <==>
            Uniform(Object(ms), sensitive) && Uniform(Object(ns), sensitive)
            && MembersMap(ms, sensitive) == MembersMap(ns, sensitive)
    decreases Depth(Object(ms)) + Depth(Object(ns)), 2
  {
    hide Denotes, MembersMap, Agrees, MatchAll, MembersUniform, Consistent, Compare, Uniform;
    CompareObjects(ms, ns, sensitive);
    UniformObject(ms, sensitive);
    UniformObject(ns, sensitive);
    if MatchAll(ms, ns, sensitive) && MatchAll(ns, ms, sensitive) {
      MatchedAgree(ms, ns, sensitive);
      MatchedAgree(ns, ms, sensitive);
      AgreementIsUniform(ms, ns, sensitive);
      AgreementIsUniform(ns, ms, sensitive);
      assert MembersMap(ms, sensitive) == MembersMap(ns, sensitive);
    }
    if Uniform(Object(ms), sensitive) && Uniform(Object(ns), sensitive)
      && MembersMap(ms, sensitive) == MembersMap(ns, sensitive) {
      UniformAgrees(ms, ns, sensitive);
      UniformAgrees(ns, ms, sensitive);
      AgreeingMatch(ms, ns, sensitive);
      AgreeingMatch(ns, ms, sensitive);
    }
  }

  // ---------- laws ----------

  /** Comparison is symmetric and transitive on all values, duplicate names included. */
  lemma {:induction false} CompareSymmetric(a: Value, b: Value, sensitive: bool)
    ensures Compare(a, b, sensitive) == Compare(b, a, sensitive)
  {
    CompareIff(a, b, sensitive);
    CompareIff(b, a, sensitive);
  }

  lemma CompareTransitive(a: Value, b: Value, c: Value, sensitive: bool)
    requires Compare(a, b, sensitive) && Compare(b, c, sensitive)
    ensures Compare(a, c, sensitive)
  {
    CompareIff(a, b, sensitive);
    CompareIff(b, c, sensitive);
    CompareIff(a, c, sensitive);
  }

  lemma {:induction false} DistinctIsUniform(v: Value, sensitive: bool)
    requires DistinctNames(v, sensitive)
    ensures Uniform(v, sensitive)
    decreases v
  {
    match v {
      case Array(es) =>
        forall i | 0 <= i < |es| ensures Uniform(es[i], sensitive) {
          DistinctIsUniform(es[i], sensitive);
        }
      case Object(ms) =>
        hide SameName, FirstLike;
        forall i | 0 <= i < |ms| ensures Uniform(ms[i].value, sensitive) && FirstLike(ms, ms[i].key, sensitive) == i {
          FoldAlike(ms[i].key, ms[i].key, sensitive);
          FirstLikeIs(ms, ms[i].key, sensitive, i);
          DistinctIsUniform(ms[i].value, sensitive);
        }
      case _ =>
    }
  }

  /**
   On values whose objects have distinct names, comparison is equality of what is denoted: member order is ignored.
   */
  lemma CompareOnDistinct(a: Value, b: Value, sensitive: bool)
    requires DistinctNames(a, sensitive) && DistinctNames(b, sensitive)
    ensures Compare(a, b, sensitive) <==> Denotes(a, sensitive) == Denotes(b, sensitive)
  {
    DistinctIsUniform(a, sensitive);
    DistinctIsUniform(b, sensitive);
    CompareIff(a, b, sensitive);
  }

  /** A structural copy compares equal exactly when the value does not contradict itself. */
  lemma CompareCopy(v: Value, sensitive: bool)
    ensures Compare(v, v, sensitive) <==> Uniform(v, sensitive)
    ensures DistinctNames(v, sensitive) ==> Compare(v, v, sensitive)
  {
    CompareIff(v, v, sensitive);
    if DistinctNames(v, sensitive) {
      DistinctIsUniform(v, sensitive);
    }
  }

  /**
   An object with two members of one name that denote different values compares equal to nothing, not even to its
   copy.
   */
  lemma ContradictionEqualsNothing(ms: seq<Member>, i: nat, j: nat, b: Value, sensitive: bool)
    requires i < |ms| && j < |ms| && SameName(ms[i].key, ms[j].key, sensitive)
    requires Denotes(ms[i].value, sensitive) != Denotes(ms[j].value, sensitive)
    ensures !Compare(Object(ms), b, sensitive)
  {
    CompareIff(Object(ms), b, sensitive);
    FoldAlike(ms[i].key, ms[j].key, sensitive);
    assert FirstLike(ms, ms[i].key, sensitive) == FirstLike(ms, ms[j].key, sensitive);
  }

  /** The smallest such object. */
  lemma CopyMayDiffer(v: Value)
    requires v == Object([Member([], Null), Member([], True)])
    ensures !Compare(v, v, true)
  {
    ContradictionEqualsNothing(v.members, 0, 1, v, true);
  }
}
