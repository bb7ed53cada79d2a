/**
  cJSON_Compare on two separate trees: arrays compare in order, objects by
  looking every key of each side up in the other.
 */
module JsonCompare {
  import opened Bytes
  import opened JsonTree

  function ToLower(b: byte): byte
  {
    if 65 <= b <= 90 then b + 32 else b
  }

  /** The key as the chosen case rule sees it. */
  function FoldKey(key: Text, caseSensitive: bool): (r: Text)
    ensures |r| == |key|
  {
    if caseSensitive then key else seq(|key|, i requires 0 <= i < |key| => ToLower(key[i]))
  }

  predicate SameKey(a: Text, b: Text, caseSensitive: bool)
  {
    FoldKey(a, caseSensitive) == FoldKey(b, caseSensitive)
  }

  /** The same letter, one time small and one time capital. */
  predicate OtherCase(a: byte, b: byte)
  {
    'A' as int <= a <= 'Z' as int && b == a + ('a' as int - 'A' as int)
  }

  /** Keys are the same byte by byte, or letter by letter when case does not count. */
  lemma SameKeyLetters(a: Text, b: Text)
    ensures SameKey(a, b, true) <==> a == b
    ensures SameKey(a, b, false) <==>
              |a| == |b| && forall i :: 0 <= i < |a| ==> a[i] == b[i] || OtherCase(a[i], b[i]) || OtherCase(b[i], a[i])
  {
    if |a| == |b| {
      forall i | 0 <= i < |a|
        ensures FoldKey(a, false)[i] == FoldKey(b, false)[i]
                <==> a[i] == b[i] || OtherCase(a[i], b[i]) || OtherCase(b[i], a[i])
      {
        assert FoldKey(a, false)[i] == ToLower(a[i]) && FoldKey(b, false)[i] == ToLower(b[i]);
      }
    }
  }

  /** get_object_item: the rest of the list from the first member with that name on. */
  function Lookup(ms: Members, name: Text, caseSensitive: bool): (r: Members)
    ensures r.Member? ==> SameKey(name, r.key, caseSensitive) && Size(r.item) < MembersSize(ms)
  {
    if ms.NoMember? || SameKey(name, ms.key, caseSensitive) then ms else Lookup(ms.next, name, caseSensitive)
  }

  predicate Equal(a: Json, b: Json, caseSensitive: bool)
    decreases Size(a) + Size(b), 1
  {
    match (a, b)
    case (Null, Null) => true
    case (False, False) => true
    case (True, True) => true
    case (Number(x), Number(y)) => x == y
    case (String(x), String(y)) => x == y
    case (Array(xs), Array(ys)) => EqualElements(xs, ys, caseSensitive)
    case (Object(xs), Object(ys)) => Covered(xs, ys, caseSensitive) && Covered(ys, xs, caseSensitive)
    case _ => false
  }

  predicate EqualElements(xs: Elements, ys: Elements, caseSensitive: bool)
    decreases ElementsSize(xs) + ElementsSize(ys), 0
  {
    if xs.NoElement? || ys.NoElement? then xs == ys
    else Equal(xs.item, ys.item, caseSensitive) && EqualElements(xs.next, ys.next, caseSensitive)
  }

  /** Every member of `xs` equals the first member of `ys` with its name. */
  predicate Covered(xs: Members, ys: Members, caseSensitive: bool)
    decreases MembersSize(xs) + MembersSize(ys), 0
  {
    xs.Member? ==>
      var y := Lookup(ys, xs.key, caseSensitive);
      y.Member? && Equal(xs.item, y.item, caseSensitive) && Covered(xs.next, ys, caseSensitive)
  }

  // ---- an equivalence on the trees it relates ----

  /** Comparison does not depend on the order of its arguments. */
  lemma {:induction false} EqualSymmetric(a: Json, b: Json, caseSensitive: bool)
    ensures Equal(a, b, caseSensitive) == Equal(b, a, caseSensitive)
    decreases Size(a) + Size(b), 1
  {
    if a.Array? && b.Array? {
      ElementsSymmetric(a.elements, b.elements, caseSensitive);
    }
  }

  lemma {:induction false} ElementsSymmetric(xs: Elements, ys: Elements, caseSensitive: bool)
    ensures EqualElements(xs, ys, caseSensitive) == EqualElements(ys, xs, caseSensitive)
    decreases ElementsSize(xs) + ElementsSize(ys), 0
  {
    if xs.Element? && ys.Element? {
      EqualSymmetric(xs.item, ys.item, caseSensitive);
      ElementsSymmetric(xs.next, ys.next, caseSensitive);
    }
  }

  lemma {:induction false} LookupSameKey(ms: Members, a: Text, b: Text, caseSensitive: bool)
    requires SameKey(a, b, caseSensitive)
    ensures Lookup(ms, a, caseSensitive) == Lookup(ms, b, caseSensitive)
  {
    if ms.Member? {
      LookupSameKey(ms.next, a, b, caseSensitive);
    }
  }

  lemma {:induction false} CoveredAt(xs: Members, ys: Members, name: Text, caseSensitive: bool)
    requires Covered(xs, ys, caseSensitive) && Lookup(xs, name, caseSensitive).Member?
    ensures var x, y := Lookup(xs, name, caseSensitive), Lookup(ys, name, caseSensitive);
            y.Member? && Equal(x.item, y.item, caseSensitive)
  {
    if SameKey(name, xs.key, caseSensitive) {
      LookupSameKey(ys, name, xs.key, caseSensitive);
    } else {
      CoveredAt(xs.next, ys, name, caseSensitive);
    }
  }

  lemma {:induction false} EqualTransitive(a: Json, b: Json, c: Json, caseSensitive: bool)
    requires Equal(a, b, caseSensitive) && Equal(b, c, caseSensitive)
    ensures Equal(a, c, caseSensitive)
    decreases Size(a) + Size(b) + Size(c), 1
  {
    if a.Array? {
      ElementsTransitive(a.elements, b.elements, c.elements, caseSensitive);
    } else if a.Object? {
      CoveredTransitive(a.members, b.members, c.members, caseSensitive);
      CoveredTransitive(c.members, b.members, a.members, caseSensitive);
    }
  }

  lemma {:induction false} ElementsTransitive(xs: Elements, ys: Elements, zs: Elements, caseSensitive: bool)
    requires EqualElements(xs, ys, caseSensitive) && EqualElements(ys, zs, caseSensitive)
    ensures EqualElements(xs, zs, caseSensitive)
    decreases ElementsSize(xs) + ElementsSize(ys) + ElementsSize(zs), 0
  {
    if xs.Element? {
      EqualTransitive(xs.item, ys.item, zs.item, caseSensitive);
      ElementsTransitive(xs.next, ys.next, zs.next, caseSensitive);
    }
  }

  lemma {:induction false} CoveredTransitive(xs: Members, ys: Members, zs: Members, caseSensitive: bool)
    requires Covered(xs, ys, caseSensitive) && Covered(ys, zs, caseSensitive)
    ensures Covered(xs, zs, caseSensitive)
    decreases MembersSize(xs) + MembersSize(ys) + MembersSize(zs), 0
  {
    if xs.Member? {
      var y := Lookup(ys, xs.key, caseSensitive);
      CoveredAt(ys, zs, xs.key, caseSensitive);
      EqualTransitive(xs.item, y.item, Lookup(zs, xs.key, caseSensitive).item, caseSensitive);
      CoveredTransitive(xs.next, ys, zs, caseSensitive);
    }
  }

  // ---- when a tree equals a copy of itself ----

  /** No object in the tree has two members with the same name. */
  predicate DistinctKeys(t: Json, caseSensitive: bool)
    decreases Size(t)
  {
    match t
    case Array(es) => DistinctElements(es, caseSensitive)
    case Object(ms) => DistinctMembers(ms, caseSensitive)
    case _ => true
  }

  predicate DistinctElements(es: Elements, caseSensitive: bool)
    decreases ElementsSize(es)
  {
    es.Element? ==> DistinctKeys(es.item, caseSensitive) && DistinctElements(es.next, caseSensitive)
  }

  predicate DistinctMembers(ms: Members, caseSensitive: bool)
    decreases MembersSize(ms)
  {
    ms.Member? ==>
      Lookup(ms.next, ms.key, caseSensitive).NoMember?
      && DistinctKeys(ms.item, caseSensitive) && DistinctMembers(ms.next, caseSensitive)
  }

  /** Members of one object that share a name mean the same, all through the tree. */
  predicate DuplicatesAgree(t: Json, caseSensitive: bool)
    decreases Size(t)
  {
    match t
    case Array(es) => ElementsAgree(es, caseSensitive)
    case Object(ms) => MembersAgree(ms, caseSensitive)
    case _ => true
  }

  predicate ElementsAgree(es: Elements, caseSensitive: bool)
    decreases ElementsSize(es)
  {
    es.Element? ==> DuplicatesAgree(es.item, caseSensitive) && ElementsAgree(es.next, caseSensitive)
  }

  predicate MembersAgree(ms: Members, caseSensitive: bool)
    decreases MembersSize(ms)
  {
    ms.Member? ==>
      (var later := Lookup(ms.next, ms.key, caseSensitive);
       later.Member? ==> MeaningOf(ms.item, caseSensitive) == MeaningOf(later.item, caseSensitive))
      && DuplicatesAgree(ms.item, caseSensitive) && MembersAgree(ms.next, caseSensitive)
  }

  lemma {:induction false} DistinctAgree(t: Json, caseSensitive: bool)
    requires DistinctKeys(t, caseSensitive)
    ensures DuplicatesAgree(t, caseSensitive)
    decreases Size(t)
  {
    match t
    case Array(es) => DistinctElementsAgree(es, caseSensitive);
    case Object(ms) => DistinctMembersAgree(ms, caseSensitive);
    case _ =>
  }

  lemma {:induction false} DistinctElementsAgree(es: Elements, caseSensitive: bool)
    requires DistinctElements(es, caseSensitive)
    ensures ElementsAgree(es, caseSensitive)
    decreases ElementsSize(es)
  {
    if es.Element? {
      DistinctAgree(es.item, caseSensitive);
      DistinctElementsAgree(es.next, caseSensitive);
    }
  }

  lemma {:induction false} DistinctMembersAgree(ms: Members, caseSensitive: bool)
    requires DistinctMembers(ms, caseSensitive)
    ensures MembersAgree(ms, caseSensitive)
    decreases MembersSize(ms)
  {
    if ms.Member? {
      DistinctAgree(ms.item, caseSensitive);
      DistinctMembersAgree(ms.next, caseSensitive);
    }
  }

  /** A tree equals a separate copy of itself exactly when its duplicate names agree. */
  lemma {:induction false} ReflexiveIff(t: Json, caseSensitive: bool)
    ensures Equal(t, t, caseSensitive) <==> DuplicatesAgree(t, caseSensitive)
    decreases Size(t), 1
  {
    match t
    case Array(es) => ElementsReflexiveIff(es, caseSensitive);
    case Object(ms) => MembersReflexiveIff(ms, caseSensitive);
    case _ =>
  }

  lemma {:induction false} ElementsReflexiveIff(es: Elements, caseSensitive: bool)
    ensures EqualElements(es, es, caseSensitive) <==> ElementsAgree(es, caseSensitive)
    decreases ElementsSize(es), 0
  {
    if es.Element? {
      ReflexiveIff(es.item, caseSensitive);
      ElementsReflexiveIff(es.next, caseSensitive);
    }
  }

  lemma {:induction false} MembersReflexiveIff(ms: Members, caseSensitive: bool)
    ensures Covered(ms, ms, caseSensitive) <==> MembersAgree(ms, caseSensitive)
    decreases MembersSize(ms), 0
  {
    if ms.Member? {
      ReflexiveIff(ms.item, caseSensitive);
      MembersReflexiveIff(ms.next, caseSensitive);
      NamedSelf(ms.next, caseSensitive);
      var later := Lookup(ms.next, ms.key, caseSensitive);
      if later.Member? {
        EqualSymmetric(later.item, ms.item, caseSensitive);
      }
      if Covered(ms, ms, caseSensitive) {
        if later.Member? {
          CoveredAt(ms.next, ms, ms.key, caseSensitive);
          EqualMeansSame(ms.item, later.item, caseSensitive);
        }
        CoveredByRest(ms.next, ms, caseSensitive);
      }
      if MembersAgree(ms, caseSensitive) {
        if later.Member? {
          CoveredAt(ms.next, ms.next, ms.key, caseSensitive);
          SameMeansEqual(ms.item, later.item, caseSensitive);
        }
        CoveredByMore(ms.next, ms, caseSensitive);
      }
    }
  }

  /** Every name in `xs` occurs in `ys`. */
  predicate Named(xs: Members, ys: Members, caseSensitive: bool)
  {
    xs.Member? ==> Lookup(ys, xs.key, caseSensitive).Member? && Named(xs.next, ys, caseSensitive)
  }

  lemma {:induction false} NamedMore(xs: Members, ys: Members, caseSensitive: bool)
    requires ys.Member? && Named(xs, ys.next, caseSensitive)
    ensures Named(xs, ys, caseSensitive)
  {
    if xs.Member? {
      NamedMore(xs.next, ys, caseSensitive);
    }
  }

  lemma {:induction false} NamedSelf(ms: Members, caseSensitive: bool)
    ensures Named(ms, ms, caseSensitive)
  {
    if ms.Member? {
      NamedSelf(ms.next, caseSensitive);
      NamedMore(ms.next, ms, caseSensitive);
    }
  }

  lemma {:induction false} CoveredByRest(xs: Members, ys: Members, caseSensitive: bool)
    requires ys.Member? && Covered(xs, ys, caseSensitive) && Named(xs, ys.next, caseSensitive)
    requires var later := Lookup(ys.next, ys.key, caseSensitive);
             later.Member? ==> Equal(ys.item, later.item, caseSensitive)
    ensures Covered(xs, ys.next, caseSensitive)
    decreases MembersSize(xs)
  {
    if xs.Member? {
      if SameKey(xs.key, ys.key, caseSensitive) {
        LookupSameKey(ys.next, xs.key, ys.key, caseSensitive);
        EqualTransitive(xs.item, ys.item, Lookup(ys.next, ys.key, caseSensitive).item, caseSensitive);
      }
      CoveredByRest(xs.next, ys, caseSensitive);
    }
  }

  lemma {:induction false} CoveredByMore(xs: Members, ys: Members, caseSensitive: bool)
    requires ys.Member? && Covered(xs, ys.next, caseSensitive)
    requires var later := Lookup(ys.next, ys.key, caseSensitive);
             later.Member? ==> Equal(later.item, ys.item, caseSensitive)
    ensures Covered(xs, ys, caseSensitive)
    decreases MembersSize(xs)
  {
    if xs.Member? {
      if SameKey(xs.key, ys.key, caseSensitive) {
        LookupSameKey(ys.next, xs.key, ys.key, caseSensitive);
        EqualTransitive(xs.item, Lookup(ys.next, ys.key, caseSensitive).item, ys.item, caseSensitive);
      }
      CoveredByMore(xs.next, ys, caseSensitive);
    }
  }

  // ---- order-insensitive meaning ----

  /** The value a tree stands for: objects are maps, the first of several equal names counts. */
  datatype Meaning =
    | MNull
    | MFalse
    | MTrue
    | MNumber(value: real)
    | MString(text: Text)
    | MArray(items: seq<Meaning>)
    | MObject(fields: map<Text, Meaning>)

  function MeaningOf(t: Json, caseSensitive: bool): Meaning
    decreases Size(t)
  {
    match t
    case Null => MNull
    case False => MFalse
    case True => MTrue
    case Number(r) => MNumber(r)
    case String(s) => MString(s)
    case Array(es) => MArray(MeaningOfElements(es, caseSensitive))
    case Object(ms) => MObject(MeaningOfMembers(ms, caseSensitive))
  }

  function MeaningOfElements(es: Elements, caseSensitive: bool): seq<Meaning>
    decreases ElementsSize(es)
  {
    if es.NoElement? then []
    else [MeaningOf(es.item, caseSensitive)] + MeaningOfElements(es.next, caseSensitive)
  }

  function MeaningOfMembers(ms: Members, caseSensitive: bool): map<Text, Meaning>
    decreases MembersSize(ms)
  {
    if ms.NoMember? then map[]
    else MeaningOfMembers(ms.next, caseSensitive)
           [FoldKey(ms.key, caseSensitive) := MeaningOf(ms.item, caseSensitive)]
  }

  lemma {:induction false} FieldIsLookup(ms: Members, name: Text, caseSensitive: bool)
    ensures var fields, found := MeaningOfMembers(ms, caseSensitive), Lookup(ms, name, caseSensitive);
            (FoldKey(name, caseSensitive) in fields <==> found.Member?)
            && (found.Member? ==>
                  fields[FoldKey(name, caseSensitive)] == MeaningOf(found.item, caseSensitive))
  {
    if ms.Member? {
      FieldIsLookup(ms.next, name, caseSensitive);
    }
  }

  /** Every field of the map comes from a member of the list. */
  lemma {:induction false} FieldHasMember(ms: Members, field: Text, caseSensitive: bool) returns (name: Text)
    requires field in MeaningOfMembers(ms, caseSensitive)
    ensures FoldKey(name, caseSensitive) == field && Lookup(ms, name, caseSensitive).Member?
    decreases MembersSize(ms)
  {
    if FoldKey(ms.key, caseSensitive) == field {
      name := ms.key;
    } else {
      name := FieldHasMember(ms.next, field, caseSensitive);
    }
  }

  lemma {:induction false} EqualMeansSame(a: Json, b: Json, caseSensitive: bool)
    requires Equal(a, b, caseSensitive)
    ensures MeaningOf(a, caseSensitive) == MeaningOf(b, caseSensitive)
    decreases Size(a) + Size(b), 1
  {
    if a.Array? {
      ElementsMeanSame(a.elements, b.elements, caseSensitive);
    } else if a.Object? {
      MembersMeanSame(a.members, b.members, caseSensitive);
    }
  }

  lemma {:induction false} ElementsMeanSame(xs: Elements, ys: Elements, caseSensitive: bool)
    requires EqualElements(xs, ys, caseSensitive)
    ensures MeaningOfElements(xs, caseSensitive) == MeaningOfElements(ys, caseSensitive)
    decreases ElementsSize(xs) + ElementsSize(ys), 0
  {
    if xs.Element? {
      EqualMeansSame(xs.item, ys.item, caseSensitive);
      ElementsMeanSame(xs.next, ys.next, caseSensitive);
    }
  }

  lemma {:induction false} MembersMeanSame(xs: Members, ys: Members, caseSensitive: bool)
    requires Covered(xs, ys, caseSensitive) && Covered(ys, xs, caseSensitive)
    ensures MeaningOfMembers(xs, caseSensitive) == MeaningOfMembers(ys, caseSensitive)
    decreases MembersSize(xs) + MembersSize(ys), 0
  {
    var fx, fy := MeaningOfMembers(xs, caseSensitive), MeaningOfMembers(ys, caseSensitive);
    forall field | field in fx
      ensures field in fy && fx[field] == fy[field]
    {
      FieldAgrees(xs, ys, field, caseSensitive);
    }
    forall field | field in fy
      ensures field in fx
    {
      FieldAgrees(ys, xs, field, caseSensitive);
    }
  }

  lemma {:induction false} FieldAgrees(xs: Members, ys: Members, field: Text, caseSensitive: bool)
    requires Covered(xs, ys, caseSensitive) && field in MeaningOfMembers(xs, caseSensitive)
    ensures field in MeaningOfMembers(ys, caseSensitive)
    ensures MeaningOfMembers(xs, caseSensitive)[field] == MeaningOfMembers(ys, caseSensitive)[field]
    decreases MembersSize(xs) + MembersSize(ys), -1
  {
    var name := FieldHasMember(xs, field, caseSensitive);
    FieldIsLookup(xs, name, caseSensitive);
    FieldIsLookup(ys, name, caseSensitive);
    CoveredAt(xs, ys, name, caseSensitive);
    EqualMeansSame(Lookup(xs, name, caseSensitive).item, Lookup(ys, name, caseSensitive).item, caseSensitive);
  }

  lemma {:induction false} SameMeansEqual(a: Json, b: Json, caseSensitive: bool)
    requires Equal(a, a, caseSensitive) && Equal(b, b, caseSensitive)
    requires MeaningOf(a, caseSensitive) == MeaningOf(b, caseSensitive)
    ensures Equal(a, b, caseSensitive)
    decreases Size(a) + Size(b), 1
  {
    if a.Array? {
      SameElementsEqual(a.elements, b.elements, caseSensitive);
    } else if a.Object? {
      SameMembersCovered(a.members, a.members, b.members, caseSensitive);
      SameMembersCovered(b.members, b.members, a.members, caseSensitive);
    }
  }

  lemma {:induction false} SameElementsEqual(xs: Elements, ys: Elements, caseSensitive: bool)
    requires EqualElements(xs, xs, caseSensitive) && EqualElements(ys, ys, caseSensitive)
    requires MeaningOfElements(xs, caseSensitive) == MeaningOfElements(ys, caseSensitive)
    ensures EqualElements(xs, ys, caseSensitive)
    decreases ElementsSize(xs) + ElementsSize(ys), 0
  {
    if xs.Element? && ys.Element? {
      var mx, my := MeaningOfElements(xs, caseSensitive), MeaningOfElements(ys, caseSensitive);
      assert mx[0] == my[0] && mx[1..] == my[1..];
      SameMeansEqual(xs.item, ys.item, caseSensitive);
      SameElementsEqual(xs.next, ys.next, caseSensitive);
    }
  }

  /** `part` is the unvisited end of `xs`. */
  lemma {:induction false} SameMembersCovered(part: Members, xs: Members, ys: Members, caseSensitive: bool)
    requires Covered(part, xs, caseSensitive) && Covered(xs, xs, caseSensitive) && Covered(ys, ys, caseSensitive)
    requires MembersSize(part) <= MembersSize(xs)
    requires MeaningOfMembers(xs, caseSensitive) == MeaningOfMembers(ys, caseSensitive)
    ensures Covered(part, ys, caseSensitive)
    decreases MembersSize(xs) + MembersSize(ys), 0, MembersSize(part)
  {
    if part.Member? {
      var x, y := Lookup(xs, part.key, caseSensitive), Lookup(ys, part.key, caseSensitive);
      FieldIsLookup(xs, part.key, caseSensitive);
      FieldIsLookup(ys, part.key, caseSensitive);
      CoveredAt(xs, xs, part.key, caseSensitive);
      CoveredAt(ys, ys, part.key, caseSensitive);
      SameMeansEqual(x.item, y.item, caseSensitive);
      EqualTransitive(part.item, x.item, y.item, caseSensitive);
      SameMembersCovered(part.next, xs, ys, caseSensitive);
    }
  }

  /**
    Exactly what cJSON_Compare decides: both trees have agreeing duplicates, and
    they mean the same value when the order of members is forgotten.
   */
  lemma CompareMeaning(a: Json, b: Json, caseSensitive: bool)
    ensures Equal(a, b, caseSensitive) <==>
              DuplicatesAgree(a, caseSensitive) && DuplicatesAgree(b, caseSensitive)
              && MeaningOf(a, caseSensitive) == MeaningOf(b, caseSensitive)
  {
    ReflexiveIff(a, caseSensitive);
    ReflexiveIff(b, caseSensitive);
    if Equal(a, b, caseSensitive) {
      EqualSymmetric(a, b, caseSensitive);
      EqualTransitive(a, b, a, caseSensitive);
      EqualTransitive(b, a, b, caseSensitive);
      EqualMeansSame(a, b, caseSensitive);
    } else if DuplicatesAgree(a, caseSensitive) && DuplicatesAgree(b, caseSensitive)
              && MeaningOf(a, caseSensitive) == MeaningOf(b, caseSensitive) {
      SameMeansEqual(a, b, caseSensitive);
    }
  }

  /** With distinct names the comparison is plain equality of meanings, and so reflexive. */
  lemma CompareDistinct(a: Json, b: Json, caseSensitive: bool)
    requires DistinctKeys(a, caseSensitive) && DistinctKeys(b, caseSensitive)
    ensures Equal(a, b, caseSensitive) <==> MeaningOf(a, caseSensitive) == MeaningOf(b, caseSensitive)
    ensures Equal(a, a, caseSensitive)
  {
    DistinctAgree(a, caseSensitive);
    DistinctAgree(b, caseSensitive);
    CompareMeaning(a, b, caseSensitive);
    CompareMeaning(a, a, caseSensitive);
  }

  /** An object that holds two numbers under one name does not equal its own copy. */
  lemma NotReflexive(key: Text, x: real, y: real, caseSensitive: bool)
    requires NulFree(key) && x != y
    ensures var t := Object(Member(key, Number(x), Member(key, Number(y), NoMember)));
            CStrings(t) && !Equal(t, t, caseSensitive)
  {
    var rest := Member(key, Number(y), NoMember);
    ReflexiveIff(Object(Member(key, Number(x), rest)), caseSensitive);
    assert Lookup(rest, key, caseSensitive) == rest;
    assert CStringMembers(NoMember) && CStrings(Number(x)) && CStrings(Number(y));
    assert CStringMembers(rest);
  }

  // ---- the loops ----

  /** Every text in the tree is a C string, as valuestring and string are. */
  predicate CStrings(t: Json)
  {
    match t
    case String(s) => NulFree(s)
    case Array(es) => CStringElements(es)
    case Object(ms) => CStringMembers(ms)
    case _ => true
  }

  predicate CStringElements(es: Elements)
  {
    es.Element? ==> CStrings(es.item) && CStringElements(es.next)
  }

  predicate CStringMembers(ms: Members)
  {
    ms.Member? ==> NulFree(ms.key) && CStrings(ms.item) && CStringMembers(ms.next)
  }

  /** Zero exactly for strings that differ at most in the case of letters. */
  method CaseInsensitiveStrcmp(a: Text, b: Text) returns (order: int)
    requires NulFree(a) && NulFree(b)
    ensures order == 0 <==> SameKey(a, b, false)
  {
    var fa, fb := FoldKey(a, false), FoldKey(b, false);
    var i := 0;
    while i < |a| && i < |b| && ToLower(a[i]) == ToLower(b[i])
      invariant i <= |a| && i <= |b|
      invariant fa[..i] == fb[..i]
    {
      i := i + 1;
    }
    if i == |a| && i == |b| {
      assert fa == fa[..i] && fb == fb[..i];
      return 0;
    }
    // the terminator of the shorter one is below every other byte
    var left := if i < |a| then ToLower(a[i]) else 0;
    var right := if i < |b| then ToLower(b[i]) else 0;
    if i < |a| && i < |b| {
      assert fa[i] != fb[i];
    }
    order := left - right;
  }

  method GetObjectItem(ms: Members, name: Text, caseSensitive: bool) returns (current: Members)
    requires NulFree(name) && CStringMembers(ms)
    ensures current == Lookup(ms, name, caseSensitive)
  {
    current := ms;
    while current.Member?
      invariant CStringMembers(current)
      invariant Lookup(ms, name, caseSensitive) == Lookup(current, name, caseSensitive)
      decreases MembersSize(current)
    {
      var order;
      if caseSensitive {
        order := if name == current.key then 0 else 1;
      } else {
        order := CaseInsensitiveStrcmp(name, current.key);
      }
      if order == 0 {
        return;
      }
      current := current.next;
    }
  }

  method Compare(a: Json, b: Json, caseSensitive: bool) returns (equal: bool)
    requires CStrings(a) && CStrings(b)
    ensures equal == Equal(a, b, caseSensitive)
    decreases Size(a) + Size(b), 2
  {
    match (a, b)
    case (Null, Null) => return true;
    case (False, False) => return true;
    case (True, True) => return true;
    case (Number(x), Number(y)) => return x == y;
    case (String(x), String(y)) => return x == y;
    case (Array(xs), Array(ys)) =>
      var left, right := xs, ys;
      while left.Element? && right.Element?
        invariant CStringElements(left) && CStringElements(right)
        invariant ElementsSize(left) <= ElementsSize(xs) && ElementsSize(right) <= ElementsSize(ys)
        invariant EqualElements(xs, ys, caseSensitive) == EqualElements(left, right, caseSensitive)
        decreases ElementsSize(left)
      {
        var same := Compare(left.item, right.item, caseSensitive);
        if !same {
          return false;
        }
        left, right := left.next, right.next;
      }
      return left.NoElement? && right.NoElement?;
    case (Object(xs), Object(ys)) =>
      var forward := CompareMembers(xs, ys, caseSensitive);
      if !forward {
        return false;
      }
      equal := CompareMembers(ys, xs, caseSensitive);
    case _ => return false;
  }

  /** One of the two loops over the children of an object. */
  method CompareMembers(xs: Members, ys: Members, caseSensitive: bool) returns (covered: bool)
    requires CStringMembers(xs) && CStringMembers(ys)
    ensures covered == Covered(xs, ys, caseSensitive)
    decreases MembersSize(xs) + MembersSize(ys), 1
  {
    var current := xs;
    while current.Member?
      invariant CStringMembers(current) && MembersSize(current) <= MembersSize(xs)
      invariant Covered(xs, ys, caseSensitive) == Covered(current, ys, caseSensitive)
      decreases MembersSize(current)
    {
      var other := GetObjectItem(ys, current.key, caseSensitive);
      if other.NoMember? {
        return false;
      }
      LookupCStrings(ys, current.key, caseSensitive);
      var same := Compare(current.item, other.item, caseSensitive);
      if !same {
        return false;
      }
      current := current.next;
    }
    return true;
  }

  lemma {:induction false} LookupCStrings(ms: Members, name: Text, caseSensitive: bool)
    requires CStringMembers(ms)
    ensures CStringMembers(Lookup(ms, name, caseSensitive))
  {
    if ms.Member? {
      LookupCStrings(ms.next, name, caseSensitive);
    }
  }
}
