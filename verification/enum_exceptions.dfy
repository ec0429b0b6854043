/**
 * The pure helpers of the exception-introspection script: attribute lookup
 * and bases-first ordering over a class hierarchy, the listing of
 * attribute names, the cartesian product of candidate arguments, probe
 * objects and their refresh, and the argument-count guard written into a
 * generated __init__.
 */
module EnumExceptions {
  import opened Wrappers

  predicate NoDup<T(==)>(s: seq<T>)
  {
    forall i, j :: 0 <= i < j < |s| ==> s[i] != s[j]
  }

  // ---------------------------------------------------------------- class hierarchy

  /** A class: the names in its own __dict__, and its __bases__ as indices of classes. */
  datatype Class = Class(attrs: set<string>, bases: seq<nat>)

  /**
   * Classes in creation order. A class's bases exist before the class is
   * created, so every base has a smaller index than the class itself.
   */
  type Hierarchy = seq<Class>

  predicate WellFormed(h: Hierarchy)
  {
    forall c, i :: 0 <= c < |h| && 0 <= i < |h[c].bases| ==> h[c].bases[i] < c
  }

  predicate Below(bs: seq<nat>, bound: nat)
  {
    forall i :: 0 <= i < |bs| ==> bs[i] < bound
  }

  /**
   * The classes a left-to-right depth-first walk from c meets, c first and
   * repeats kept: the order in which classOfAttribute looks.
   */
  function Preorder(h: Hierarchy, c: nat): (r: seq<nat>)
    requires WellFormed(h) && c < |h|
    ensures |r| > 0 && r[0] == c && Below(r, c + 1)
    decreases c, 1, 0
  {
    [c] + PreorderAll(h, h[c].bases, c)
  }

  function PreorderAll(h: Hierarchy, bs: seq<nat>, bound: nat): (r: seq<nat>)
    requires WellFormed(h) && bound <= |h| && Below(bs, bound)
    ensures Below(r, bound)
    decreases bound, 0, |bs|
  {
    if |bs| == 0 then [] else Preorder(h, bs[0]) + PreorderAll(h, bs[1..], bound)
  }

  /** The position of the first class in s whose own dict holds name. */
  function FirstIndex(h: Hierarchy, s: seq<nat>, name: string): (r: Option<nat>)
    requires Below(s, |h|)
    ensures r.None? <==> forall i :: 0 <= i < |s| ==> name !in h[s[i]].attrs
    ensures r.Some? ==> r.value < |s| && name in h[s[r.value]].attrs
    ensures r.Some? ==> forall i :: 0 <= i < r.value ==> name !in h[s[i]].attrs
  {
    if |s| == 0 then None
    else if name in h[s[0]].attrs then Some(0)
    else
      var k := FirstIndex(h, s[1..], name);
      if k.Some? then Some(k.value + 1) else None
  }

  /** classOfAttribute: c itself when its dict holds name, else the first hit among its bases, left to right. */
  function ClassOfAttribute(h: Hierarchy, c: nat, name: string): (r: Option<nat>)
    requires WellFormed(h) && c < |h|
    ensures name in h[c].attrs ==> r == Some(c)
    ensures r.Some? ==> r.value <= c && name in h[r.value].attrs
    decreases c, 1, 0
  {
    if name in h[c].attrs then Some(c) else FirstHit(h, h[c].bases, name, c)
  }

  /** The loop over __bases__: the first base whose lookup succeeds. */
  function FirstHit(h: Hierarchy, bs: seq<nat>, name: string, bound: nat): (r: Option<nat>)
    requires WellFormed(h) && bound <= |h| && Below(bs, bound)
    ensures r.Some? ==> r.value < bound && name in h[r.value].attrs
    decreases bound, 0, |bs|
  {
    if |bs| == 0 then None
    else
      var ret := ClassOfAttribute(h, bs[0], name);
      if ret.Some? then ret else FirstHit(h, bs[1..], name, bound)
  }

  /** The first hit in s + t is the first hit in s, or failing that the first hit in t. */
  lemma {:induction false} FirstIndexConcat(h: Hierarchy, s: seq<nat>, t: seq<nat>, name: string)
    requires Below(s, |h|) && Below(t, |h|)
    ensures Below(s + t, |h|)
    ensures FirstIndex(h, s + t, name) ==
      if FirstIndex(h, s, name).Some? then FirstIndex(h, s, name)
      else if FirstIndex(h, t, name).Some? then Some(|s| + FirstIndex(h, t, name).value)
      else None
  {
    if |s| == 0 {
      assert s + t == t;
    } else if name !in h[s[0]].attrs {
      assert (s + t)[0] == s[0];
      assert (s + t)[1..] == s[1..] + t;
      FirstIndexConcat(h, s[1..], t, name);
    } else {
      assert (s + t)[0] == s[0];
    }
  }

  /** The class found at the first hit of s, if any. */
  function HitIn(h: Hierarchy, s: seq<nat>, name: string): Option<nat>
    requires Below(s, |h|)
  {
    var k := FirstIndex(h, s, name);
    if k.Some? then Some(s[k.value]) else None
  }

  /** classOfAttribute finds the first class of the depth-first preorder whose own dict holds the name. */
  lemma {:induction false} ClassOfAttributeIsFirstInPreorder(h: Hierarchy, c: nat, name: string)
    requires WellFormed(h) && c < |h|
    ensures ClassOfAttribute(h, c, name) == HitIn(h, Preorder(h, c), name)
    decreases c, 1, 0
  {
    var s := Preorder(h, c);
    if name !in h[c].attrs {
      var rest := PreorderAll(h, h[c].bases, c);
      FirstHitIsFirstInPreorder(h, h[c].bases, name, c);
      FirstIndexConcat(h, [c], rest, name);
      assert FirstIndex(h, [c], name) == None by {
        assert FirstIndex(h, [c][1..], name) == None;
      }
    }
  }

  lemma {:induction false} FirstHitIsFirstInPreorder(h: Hierarchy, bs: seq<nat>, name: string, bound: nat)
    requires WellFormed(h) && bound <= |h| && Below(bs, bound)
    ensures FirstHit(h, bs, name, bound) == HitIn(h, PreorderAll(h, bs, bound), name)
    decreases bound, 0, |bs|
  {
    if |bs| > 0 {
      var head := Preorder(h, bs[0]);
      var tail := PreorderAll(h, bs[1..], bound);
      ClassOfAttributeIsFirstInPreorder(h, bs[0], name);
      FirstHitIsFirstInPreorder(h, bs[1..], name, bound);
      FirstIndexConcat(h, head, tail, name);
      assert PreorderAll(h, bs, bound) == head + tail;
    }
  }

  /** Lookup fails exactly when no class on the walk holds the name. */
  lemma ClassOfAttributeNone(h: Hierarchy, c: nat, name: string)
    requires WellFormed(h) && c < |h|
    ensures ClassOfAttribute(h, c, name).None? <==>
      forall i :: 0 <= i < |Preorder(h, c)| ==> name !in h[Preorder(h, c)[i]].attrs
    ensures ClassOfAttribute(h, c, name).Some? ==> ClassOfAttribute(h, c, name).value in Preorder(h, c)
  {
    ClassOfAttributeIsFirstInPreorder(h, c, name);
  }

  // ---------------------------------------------------------------- attribute names

  /** getAttributes: the names of dir(klass), in order, that are not in the ignore list. */
  function GetAttributes(names: seq<string>, ignore: seq<string>): (r: seq<string>)
    ensures |r| <= |names|
    ensures forall x :: x in r <==> x in names && x !in ignore
    ensures forall x :: multiset(r)[x] == if x in ignore then 0 else multiset(names)[x]
  {
    if |names| == 0 then []
    else
      var rest := GetAttributes(names[1..], ignore);
      assert names == [names[0]] + names[1..];
      if names[0] in ignore then rest else [names[0]] + rest
  }

  /** Filtering a concatenation filters each part, keeping their order. */
  lemma {:induction false} GetAttributesConcat(a: seq<string>, b: seq<string>, ignore: seq<string>)
    ensures GetAttributes(a + b, ignore) == GetAttributes(a, ignore) + GetAttributes(b, ignore)
  {
    if |a| > 0 {
      assert (a + b)[1..] == a[1..] + b;
      GetAttributesConcat(a[1..], b, ignore);
    } else {
      assert a + b == b;
    }
  }

  /** A single name is kept exactly when it is not ignored. */
  lemma GetAttributesOne(x: string, ignore: seq<string>)
    ensures GetAttributes([x], ignore) == if x in ignore then [] else [x]
  {
    assert [x][1..] == [];
  }

  /** Filtering twice with the same ignore list changes nothing more. */
  lemma {:induction false} GetAttributesIdempotent(names: seq<string>, ignore: seq<string>)
    ensures GetAttributes(GetAttributes(names, ignore), ignore) == GetAttributes(names, ignore)
  {
    if |names| > 0 {
      GetAttributesIdempotent(names[1..], ignore);
      var rest := GetAttributes(names[1..], ignore);
      if names[0] !in ignore {
        assert ([names[0]] + rest)[1..] == rest;
      }
    }
  }

  // ---------------------------------------------------------------- bases-first ordering

  function Elems(s: seq<nat>): (r: set<nat>)
    ensures forall x :: x in r <==> x in s
  {
    set x | x in s
  }

  /** Every listed class comes after each of its bases. */
  predicate BasesFirst(h: Hierarchy, s: seq<nat>)
  {
    && Below(s, |h|)
    && forall i, j :: 0 <= i < |s| && 0 <= j < |h[s[i]].bases| ==> h[s[i]].bases[j] in s[..i]
  }

  /** Appending a class whose bases are all listed keeps bases first. */
  lemma AppendBasesFirst(h: Hierarchy, s: seq<nat>, e: nat)
    requires BasesFirst(h, s) && e < |h|
    requires forall j :: 0 <= j < |h[e].bases| ==> h[e].bases[j] in s
    ensures BasesFirst(h, s + [e])
  {
    var s' := s + [e];
    forall i, j | 0 <= i < |s'| && 0 <= j < |h[s'[i]].bases|
      ensures h[s'[i]].bases[j] in s'[..i]
    {
      if i < |s| {
        assert s'[..i] == s[..i];
      } else {
        assert s'[..i] == s;
      }
    }
  }

  /**
   * The state shared by enumerateOne calls: `ordered` lists distinct
   * classes bases first, every listed class is seen, and every class seen
   * but not yet listed is a caller still on the stack, at `low` or above.
   */
  predicate Enumerating(h: Hierarchy, seen: set<nat>, ordered: seq<nat>, low: nat)
  {
    && NoDup(ordered) && BasesFirst(h, ordered)
    && (forall i :: 0 <= i < |ordered| ==> ordered[i] in seen)
    && (forall x :: x in seen && x !in ordered ==> low <= x)
  }

  /**
   * From (seen, ordered) to (seen', ordered'): ordered' extends ordered by
   * distinct classes, bases first; the new classes were unseen and lie in
   * `pool`, and seen' adds exactly them.
   */
  ghost predicate Extends(h: Hierarchy, seen: set<nat>, ordered: seq<nat>, seen': set<nat>, ordered': seq<nat>, pool: seq<nat>)
  {
    && |ordered| <= |ordered'| && ordered'[..|ordered|] == ordered
    && NoDup(ordered') && BasesFirst(h, ordered')
    && (forall x :: x in seen' <==> x in seen || x in ordered'[|ordered|..])
    && (forall i :: |ordered| <= i < |ordered'| ==> ordered'[i] !in seen && ordered'[i] in pool)
  }

  /** enumerateOne: mark e seen, enumerate its unseen bases left to right, then list e. */
  function EnumerateOne(h: Hierarchy, e: nat, seen: set<nat>, ordered: seq<nat>): (r: (set<nat>, seq<nat>))
    requires WellFormed(h) && e < |h| && e !in seen && Enumerating(h, seen, ordered, e + 1)
    ensures Extends(h, seen, ordered, r.0, r.1, Preorder(h, e)) && e in r.1
    decreases e, 1, 0
  {
    var r1 := EnumerateBases(h, e, h[e].bases, seen + {e}, ordered);
    OneStep(h, e, seen, ordered, r1.0, r1.1);
    (r1.0, r1.1 + [e])
  }

  /** The loop over e's bases, with e already seen. */
  function EnumerateBases(h: Hierarchy, e: nat, bs: seq<nat>, seen: set<nat>, ordered: seq<nat>): (r: (set<nat>, seq<nat>))
    requires WellFormed(h) && e < |h| && e in seen && e !in ordered && Below(bs, e)
    requires Enumerating(h, seen, ordered, e)
    ensures Extends(h, seen, ordered, r.0, r.1, PreorderAll(h, bs, e))
    ensures forall i :: 0 <= i < |bs| ==> bs[i] in r.1
    decreases e, 0, |bs|
  {
    if |bs| == 0 then
      ExtendsNothing(h, seen, ordered, PreorderAll(h, bs, e));
      (seen, ordered)
    else
      var r1 := EnumerateBase(h, e, bs[0], seen, ordered);
      var r2 := EnumerateBases(h, e, bs[1..], r1.0, r1.1);
      BasesStep(h, e, bs, seen, ordered, r1.0, r1.1, r2.0, r2.1);
      r2
  }

  /** One base of e: enumerated unless already seen, and listed either way. */
  function EnumerateBase(h: Hierarchy, e: nat, b: nat, seen: set<nat>, ordered: seq<nat>): (r: (set<nat>, seq<nat>))
    requires WellFormed(h) && e < |h| && e in seen && e !in ordered && b < e
    requires Enumerating(h, seen, ordered, e)
    ensures Extends(h, seen, ordered, r.0, r.1, Preorder(h, b)) && b in r.1
    ensures Enumerating(h, r.0, r.1, e) && e in r.0 && e !in r.1
    decreases e, 0, 0
  {
    if b in seen then
      ExtendsNothing(h, seen, ordered, Preorder(h, b));
      (seen, ordered)
    else
      var r := EnumerateOne(h, b, seen, ordered);
      ExtendsKeepsEnumerating(h, seen, ordered, r.0, r.1, Preorder(h, b), e);
      r
  }

  lemma ExtendsNothing(h: Hierarchy, seen: set<nat>, ordered: seq<nat>, pool: seq<nat>)
    requires NoDup(ordered) && BasesFirst(h, ordered)
    ensures Extends(h, seen, ordered, seen, ordered, pool)
  {
    assert ordered[..|ordered|] == ordered;
  }

  lemma OneStep(h: Hierarchy, e: nat, seen: set<nat>, ordered: seq<nat>, s1: set<nat>, o1: seq<nat>)
    requires WellFormed(h) && e < |h| && e !in seen && Enumerating(h, seen, ordered, e + 1)
    requires Extends(h, seen + {e}, ordered, s1, o1, PreorderAll(h, h[e].bases, e))
    requires forall i :: 0 <= i < |h[e].bases| ==> h[e].bases[i] in o1
    ensures Extends(h, seen, ordered, s1, o1 + [e], Preorder(h, e))
  {
    var o := o1 + [e];
    assert e !in o1 by {
      forall i | 0 <= i < |o1|
        ensures o1[i] != e
      {
        if i < |ordered| {
          assert o1[i] == ordered[i];
        }
      }
    }
    AppendBasesFirst(h, o1, e);
    assert o[..|ordered|] == o1[..|ordered|];
    assert o[|ordered|..] == o1[|ordered|..] + [e];
    assert Preorder(h, e) == [e] + PreorderAll(h, h[e].bases, e);
    forall i | |ordered| <= i < |o|
      ensures o[i] !in seen && o[i] in Preorder(h, e)
    {
      if i < |o1| {
        assert o[i] == o1[i];
      }
    }
  }

  lemma BasesStep(h: Hierarchy, e: nat, bs: seq<nat>, seen: set<nat>, ordered: seq<nat>, s1: set<nat>, o1: seq<nat>, s2: set<nat>, o2: seq<nat>)
    requires WellFormed(h) && e < |h| && |bs| > 0 && Below(bs, e)
    requires Extends(h, seen, ordered, s1, o1, Preorder(h, bs[0])) && bs[0] in o1
    requires Extends(h, s1, o1, s2, o2, PreorderAll(h, bs[1..], e))
    requires forall i :: 0 <= i < |bs| - 1 ==> bs[1..][i] in o2
    ensures Extends(h, seen, ordered, s2, o2, PreorderAll(h, bs, e))
    ensures forall i :: 0 <= i < |bs| ==> bs[i] in o2
  {
    ExtendsChain(h, seen, ordered, s1, o1, s2, o2, Preorder(h, bs[0]), PreorderAll(h, bs[1..], e));
    assert PreorderAll(h, bs, e) == Preorder(h, bs[0]) + PreorderAll(h, bs[1..], e);
    assert forall i :: 0 <= i < |o1| ==> o2[i] == o1[i];
    forall i | 0 <= i < |bs|
      ensures bs[i] in o2
    {
      if i > 0 {
        assert bs[i] == bs[1..][i - 1];
      }
    }
  }

  lemma ExtendsChain(h: Hierarchy, s0: set<nat>, o0: seq<nat>, s1: set<nat>, o1: seq<nat>, s2: set<nat>, o2: seq<nat>, p1: seq<nat>, p2: seq<nat>)
    requires Extends(h, s0, o0, s1, o1, p1) && Extends(h, s1, o1, s2, o2, p2)
    ensures Extends(h, s0, o0, s2, o2, p1 + p2)
  {
    assert o2[..|o0|] == o1[..|o0|];
    forall i | |o0| <= i < |o2|
      ensures o2[i] !in s0 && o2[i] in p1 + p2
    {
      if i < |o1| {
        assert o2[i] == o1[i];
      }
    }
    forall x | x in o2[|o0|..]
      ensures x in o1[|o0|..] || x in o2[|o1|..]
    {
      var i :| |o0| <= i < |o2| && o2[i] == x;
      if i < |o1| {
        assert o1[i] == x;
      } else {
        assert o2[|o1|..][i - |o1|] == x;
      }
    }
    forall x | x in o1[|o0|..] || x in o2[|o1|..]
      ensures x in o2[|o0|..]
    {
      if x in o1[|o0|..] {
        var i :| |o0| <= i < |o1| && o1[i] == x;
        assert o2[i] == x;
      } else {
        var i :| |o1| <= i < |o2| && o2[i] == x;
      }
    }
  }

  /** An extension keeps the pending classes pending, and only them. */
  lemma ExtendsKeepsEnumerating(h: Hierarchy, seen: set<nat>, ordered: seq<nat>, seen': set<nat>, ordered': seq<nat>, pool: seq<nat>, low: nat)
    requires Extends(h, seen, ordered, seen', ordered', pool) && Enumerating(h, seen, ordered, low)
    ensures Enumerating(h, seen', ordered', low)
  {
    forall i | 0 <= i < |ordered'|
      ensures ordered'[i] in seen'
    {
      if i < |ordered| {
        assert ordered'[i] == ordered[i];
      } else {
        assert ordered'[|ordered|..][i - |ordered|] == ordered'[i];
      }
    }
  }

  /** What a module's dict holds: classes, and values of other kinds that the walk passes over. */
  datatype Value = ClassValue(cls: nat) | OtherValue

  predicate ValuesIn(h: Hierarchy, vs: seq<Value>)
  {
    forall i :: 0 <= i < |vs| && vs[i].ClassValue? ==> vs[i].cls < |h|
  }

  /** The classes a dict value leads to: its walk if it is a class, nothing otherwise. */
  function ValueWalk(h: Hierarchy, v: Value): seq<nat>
    requires WellFormed(h) && (v.ClassValue? ==> v.cls < |h|)
  {
    if v.ClassValue? then Preorder(h, v.cls) else []
  }

  /** Every class reachable from the dict's classes through __bases__, in walk order. */
  function Reach(h: Hierarchy, vs: seq<Value>): seq<nat>
    requires WellFormed(h) && ValuesIn(h, vs)
  {
    if |vs| == 0 then [] else ValueWalk(h, vs[0]) + Reach(h, vs[1..])
  }

  /** One dict value: a class not yet seen is enumerated; anything else is passed over. */
  function EnumerateValue(h: Hierarchy, v: Value, seen: set<nat>, ordered: seq<nat>): (r: (set<nat>, seq<nat>))
    requires WellFormed(h) && (v.ClassValue? ==> v.cls < |h|) && Enumerating(h, seen, ordered, |h|)
    ensures Extends(h, seen, ordered, r.0, r.1, ValueWalk(h, v)) && Enumerating(h, r.0, r.1, |h|)
    ensures v.ClassValue? ==> v.cls in r.1
  {
    if v.ClassValue? && v.cls !in seen then
      var r := EnumerateOne(h, v.cls, seen, ordered);
      ExtendsKeepsEnumerating(h, seen, ordered, r.0, r.1, ValueWalk(h, v), |h|);
      r
    else
      ExtendsNothing(h, seen, ordered, ValueWalk(h, v));
      (seen, ordered)
  }

  /** The loop of enumExceptionsInOrder over the dict's values. */
  function EnumFrom(h: Hierarchy, vs: seq<Value>, seen: set<nat>, ordered: seq<nat>): (r: (set<nat>, seq<nat>))
    requires WellFormed(h) && ValuesIn(h, vs) && Enumerating(h, seen, ordered, |h|)
    ensures Extends(h, seen, ordered, r.0, r.1, Reach(h, vs))
    ensures forall i :: 0 <= i < |vs| && vs[i].ClassValue? ==> vs[i].cls in r.1
  {
    if |vs| == 0 then
      ExtendsNothing(h, seen, ordered, Reach(h, vs));
      (seen, ordered)
    else
      var r1 := EnumerateValue(h, vs[0], seen, ordered);
      var r2 := EnumFrom(h, vs[1..], r1.0, r1.1);
      FromStep(h, vs, seen, ordered, r1.0, r1.1, r2.0, r2.1);
      r2
  }

  lemma FromStep(h: Hierarchy, vs: seq<Value>, seen: set<nat>, ordered: seq<nat>, s1: set<nat>, o1: seq<nat>, s2: set<nat>, o2: seq<nat>)
    requires WellFormed(h) && ValuesIn(h, vs) && |vs| > 0
    requires Extends(h, seen, ordered, s1, o1, ValueWalk(h, vs[0])) && (vs[0].ClassValue? ==> vs[0].cls in o1)
    requires Extends(h, s1, o1, s2, o2, Reach(h, vs[1..]))
    requires forall i :: 0 <= i < |vs| - 1 && vs[1..][i].ClassValue? ==> vs[1..][i].cls in o2
    ensures Extends(h, seen, ordered, s2, o2, Reach(h, vs))
    ensures forall i :: 0 <= i < |vs| && vs[i].ClassValue? ==> vs[i].cls in o2
  {
    ExtendsChain(h, seen, ordered, s1, o1, s2, o2, ValueWalk(h, vs[0]), Reach(h, vs[1..]));
    assert forall i :: 0 <= i < |o1| ==> o2[i] == o1[i];
    forall i | 0 <= i < |vs| && vs[i].ClassValue?
      ensures vs[i].cls in o2
    {
      if i > 0 {
        assert vs[i] == vs[1..][i - 1];
      }
    }
  }

  /** enumExceptionsInOrder: the classes of the dict and all their bases, each once, every class after its bases. */
  function EnumInOrder(h: Hierarchy, vs: seq<Value>): (r: seq<nat>)
    requires WellFormed(h) && ValuesIn(h, vs)
    ensures NoDup(r) && BasesFirst(h, r)
    ensures forall i :: 0 <= i < |vs| && vs[i].ClassValue? ==> vs[i].cls in r
    ensures forall x :: x in r ==> x in Reach(h, vs)
  {
    var r := EnumFrom(h, vs, {}, []);
    assert r.1[0..] == r.1;
    r.1
  }

  /** A list that holds c and keeps bases first holds everything the walk from c meets. */
  lemma {:induction false} PreorderWithin(h: Hierarchy, c: nat, s: seq<nat>)
    requires WellFormed(h) && c < |h| && BasesFirst(h, s) && c in s
    ensures forall x :: x in Preorder(h, c) ==> x in s
    decreases c, 1, 0
  {
    var i :| 0 <= i < |s| && s[i] == c;
    assert forall j :: 0 <= j < |h[c].bases| ==> h[s[i]].bases[j] in s[..i];
    PreorderAllWithin(h, h[c].bases, c, s);
  }

  lemma {:induction false} PreorderAllWithin(h: Hierarchy, bs: seq<nat>, bound: nat, s: seq<nat>)
    requires WellFormed(h) && bound <= |h| && Below(bs, bound) && BasesFirst(h, s)
    requires forall j :: 0 <= j < |bs| ==> bs[j] in s
    ensures forall x :: x in PreorderAll(h, bs, bound) ==> x in s
    decreases bound, 0, |bs|
  {
    if |bs| > 0 {
      PreorderWithin(h, bs[0], s);
      PreorderAllWithin(h, bs[1..], bound, s);
    }
  }

  /** The ordering lists exactly the classes reachable from the dict's classes. */
  lemma {:induction false} EnumInOrderExact(h: Hierarchy, vs: seq<Value>)
    requires WellFormed(h) && ValuesIn(h, vs)
    ensures forall x :: x in EnumInOrder(h, vs) <==> x in Reach(h, vs)
  {
    ReachWithin(h, vs, EnumInOrder(h, vs));
  }

  lemma {:induction false} ReachWithin(h: Hierarchy, vs: seq<Value>, s: seq<nat>)
    requires WellFormed(h) && ValuesIn(h, vs) && BasesFirst(h, s)
    requires forall i :: 0 <= i < |vs| && vs[i].ClassValue? ==> vs[i].cls in s
    ensures forall x :: x in Reach(h, vs) ==> x in s
  {
    if |vs| > 0 {
      if vs[0].ClassValue? {
        PreorderWithin(h, vs[0].cls, s);
      }
      ReachWithin(h, vs[1..], s);
    }
  }

  // ---------------------------------------------------------------- cartesian product

  /** t is a tuple of the product: one element from each list, in order. */
  predicate Tuple<T(==)>(t: seq<T>, args: seq<seq<T>>)
  {
    |t| == |args| && forall k :: 0 <= k < |t| ==> t[k] in args[k]
  }

  /** The number of tuples in the product: the lengths multiplied, 1 for no lists. */
  function Product<T>(args: seq<seq<T>>): nat
  {
    if |args| == 0 then 1 else |args[0]| * Product(args[1..])
  }

  /** [x] + t for every t of others, in order. */
  function Prefixed<T>(x: T, others: seq<seq<T>>): (r: seq<seq<T>>)
    ensures |r| == |others| && forall j :: 0 <= j < |others| ==> r[j] == [x] + others[j]
  {
    seq(|others|, j requires 0 <= j < |others| => [x] + others[j])
  }

  /** The nested loop of cartesian: each item of the first list, with every tuple of the rest. */
  function Combine<T(==,!new)>(items: seq<T>, others: seq<seq<T>>): (r: seq<seq<T>>)
    ensures |r| == |items| * |others|
    ensures forall t :: t in r <==> |t| > 0 && t[0] in items && t[1..] in others
  {
    if |items| == 0 then []
    else
      var rest := Combine(items[1..], others);
      PrefixedMembers(items[0], others);
      assert |items| * |others| == |others| + (|items| - 1) * |others|;
      assert forall x :: x in items <==> x == items[0] || x in items[1..];
      Prefixed(items[0], others) + rest
  }

  lemma PrefixedMembers<T(!new)>(x: T, others: seq<seq<T>>)
    ensures forall t :: t in Prefixed(x, others) <==> |t| > 0 && t[0] == x && t[1..] in others
  {
    var p := Prefixed(x, others);
    forall t | |t| > 0 && t[0] == x && t[1..] in others
      ensures t in p
    {
      var j :| 0 <= j < |others| && others[j] == t[1..];
      assert t == [x] + others[j];
      assert p[j] == t;
    }
  }

  /**
   * cartesian: every tuple taking one element from each list, the first
   * position varying slowest; with no lists, the single empty tuple.
   */
  function Cartesian<T(==,!new)>(args: seq<seq<T>>): (r: seq<seq<T>>)
    ensures |r| == Product(args)
    ensures forall t :: t in r <==> Tuple(t, args)
    decreases |args|
  {
    if |args| == 0 then
      assert forall t :: Tuple(t, args) ==> t == [];
      [[]]
    else if |args| == 1 then
      var r := seq(|args[0]|, i requires 0 <= i < |args[0]| => [args[0][i]]);
      assert Product(args) == |args[0]| by {
        assert Product(args[1..]) == 1;
      }
      forall t | Tuple(t, args)
        ensures t in r
      {
        var i :| 0 <= i < |args[0]| && args[0][i] == t[0];
        assert r[i] == t;
      }
      r
    else
      var rest := Cartesian(args[1..]);
      forall t
        ensures Tuple(t, args) <==> |t| > 0 && t[0] in args[0] && Tuple(t[1..], args[1..])
      {
        TupleCons(t, args);
      }
      Combine(args[0], rest)
  }

  lemma TupleCons<T(!new)>(t: seq<T>, args: seq<seq<T>>)
    requires |args| > 0
    ensures Tuple(t, args) <==> |t| > 0 && t[0] in args[0] && Tuple(t[1..], args[1..])
  {
    if |t| > 0 && t[0] in args[0] && Tuple(t[1..], args[1..]) {
      forall k | 0 <= k < |t|
        ensures t[k] in args[k]
      {
        if k > 0 {
          assert t[1..][k - 1] == t[k];
        }
      }
    }
  }

  /** i * n, counted out as i blocks of n. */
  function Blocks(i: nat, n: nat): (r: nat)
  {
    if i == 0 then 0 else n + Blocks(i - 1, n)
  }

  lemma {:induction false} BlocksIsProduct(i: nat, n: nat)
    ensures Blocks(i, n) == i * n
  {
    if i > 0 {
      BlocksIsProduct(i - 1, n);
      assert i * n == (i - 1) * n + n;
    }
  }

  /** In the nested loop, item i of the first list is paired with tuple j of the rest after i blocks of n. */
  lemma {:induction false} CombineAt<T(!new)>(items: seq<T>, others: seq<seq<T>>, i: nat, j: nat)
    requires i < |items| && j < |others|
    ensures Blocks(i, |others|) + j < |Combine(items, others)|
    ensures Combine(items, others)[Blocks(i, |others|) + j] == [items[i]] + others[j]
  {
    var rest := Combine(items[1..], others);
    assert Combine(items, others) == Prefixed(items[0], others) + rest;
    if i > 0 {
      CombineAt(items[1..], others, i - 1, j);
    }
  }

  /**
   * The first position varies slowest: with n tuples of the other lists,
   * tuple i * n + j of the product is item i of the first list before
   * tuple j of the rest.
   */
  lemma CartesianOrder<T(!new)>(args: seq<seq<T>>, i: nat, j: nat)
    requires |args| > 1 && i < |args[0]| && j < |Cartesian(args[1..])|
    ensures Blocks(i, |Cartesian(args[1..])|) + j < |Cartesian(args)|
    ensures Cartesian(args)[Blocks(i, |Cartesian(args[1..])|) + j] == [args[0][i]] + Cartesian(args[1..])[j]
  {
    var rest := Cartesian(args[1..]);
    assert Cartesian(args) == Combine(args[0], rest);
    CombineAt(args[0], rest, i, j);
  }

  /** The one-list branch yields what the general nested loop would: each item as a 1-tuple. */
  lemma CartesianOneAgrees<T(!new)>(a: seq<T>)
    ensures Cartesian([a]) == Combine(a, Cartesian([]))
  {
    var l := Cartesian([a]);
    var c := Combine(a, [[]]);
    forall i | 0 <= i < |a|
      ensures l[i] == c[i]
    {
      CombineAt(a, [[]], i, 0);
      BlocksIsProduct(i, 1);
      assert [a[i]] + [] == [a[i]];
    }
  }

  // ---------------------------------------------------------------- probe objects

  /** A probe standing in for argument `argpos`; `probed` lists the indices asked for, in first-asked order. */
  datatype Probe = Probe(argpos: nat, maxprobe: Option<int>, probed: seq<int>)

  datatype ProbeError = IndexError(idx: int)

  /** The decimal digits of n, as %d writes them. */
  function Decimal(n: nat): (r: string)
    ensures |r| > 0 && forall i :: 0 <= i < |r| ==> '0' <= r[i] <= '9'
  {
    if n < 10 then [(48 + n) as char] else Decimal(n / 10) + [(48 + n % 10) as char]
  }

  /** An integer as %s writes it: a minus sign before a negative number's digits. */
  function IntText(i: int): (r: string)
    ensures |r| > 0
  {
    if i < 0 then "-" + Decimal(-i) else Decimal(i)
  }

  /** The string a probe returns for an index: "arg<argpos>_<idx>". */
  function ProbeName(argpos: nat, idx: int): string
  {
    "arg" + (Decimal(argpos) + "_" + IntText(idx))
  }

  /**
   * ProbeObject.__getitem__: records idx unless already recorded, even
   * when it then raises; raises IndexError for an index beyond maxprobe,
   * and otherwise returns the probe's name for the index.
   */
  function GetItem(p: Probe, idx: int): (r: (Probe, Result<string, ProbeError>))
    ensures r.0.argpos == p.argpos && r.0.maxprobe == p.maxprobe
    ensures |p.probed| <= |r.0.probed| <= |p.probed| + 1 && r.0.probed[..|p.probed|] == p.probed
    ensures forall x :: x in r.0.probed <==> x in p.probed || x == idx
    ensures NoDup(p.probed) ==> NoDup(r.0.probed)
    ensures r.1.Err? <==> p.maxprobe.Some? && idx > p.maxprobe.value
    ensures r.1.Err? ==> r.1.error == IndexError(idx)
    ensures r.1.Ok? ==> r.1.value == ProbeName(p.argpos, idx)
  {
    var probed := if idx in p.probed then p.probed else p.probed + [idx];
    assert probed[..|p.probed|] == p.probed;
    var q := p.(probed := probed);
    if p.maxprobe.Some? && idx > p.maxprobe.value then (q, Err(IndexError(idx)))
    else (q, Ok(ProbeName(p.argpos, idx)))
  }

  /** Asking for the same index again records nothing new. */
  lemma GetItemRecordsOnce(p: Probe, idx: int)
    ensures GetItem(GetItem(p, idx).0, idx).0 == GetItem(p, idx).0
  {
  }

  lemma {:induction false} DecimalInjective(a: nat, b: nat)
    requires Decimal(a) == Decimal(b)
    ensures a == b
  {
    if a >= 10 && b >= 10 {
      var da := Decimal(a);
      assert da[..|da| - 1] == Decimal(a / 10);
      assert Decimal(b)[..|da| - 1] == Decimal(b / 10);
      DecimalInjective(a / 10, b / 10);
    }
  }

  lemma IntTextInjective(i: int, j: int)
    requires IntText(i) == IntText(j)
    ensures i == j
  {
    if i < 0 && j < 0 {
      assert IntText(i)[1..] == Decimal(-i) && IntText(j)[1..] == Decimal(-j);
      DecimalInjective(-i, -j);
    } else if i >= 0 && j >= 0 {
      DecimalInjective(i, j);
    } else {
      SignDiffers(i, j);
      assert false;
    }
  }

  /** A negative number's text starts with a minus sign, another's with a digit. */
  lemma SignDiffers(i: int, j: int)
    ensures (i < 0) != (j < 0) ==> IntText(i)[0] != IntText(j)[0]
  {
  }

  /** An underscore where the other string still has a digit tells the two apart. */
  lemma UnderscoreEarlier(u: string, v: string, u': string, v': string)
    requires forall i :: 0 <= i < |u'| ==> '0' <= u'[i] <= '9'
    requires |u| < |u'|
    ensures u + "_" + v != u' + "_" + v'
  {
    assert (u + "_" + v)[|u|] == '_';
    assert (u' + "_" + v')[|u|] == u'[|u|];
  }

  /** Digits, an underscore, then anything: the underscore is found where the digits end. */
  lemma SplitAtUnderscore(u: string, v: string, u': string, v': string)
    requires forall i :: 0 <= i < |u| ==> '0' <= u[i] <= '9'
    requires forall i :: 0 <= i < |u'| ==> '0' <= u'[i] <= '9'
    requires u + "_" + v == u' + "_" + v'
    ensures u == u' && v == v'
  {
    var w := u + "_" + v;
    if |u| < |u'| {
      UnderscoreEarlier(u, v, u', v');
      assert false;
    } else if |u'| < |u| {
      UnderscoreEarlier(u', v', u, v);
      assert false;
    }
    assert u == w[..|u|] && u' == (u' + "_" + v')[..|u|];
    assert v == w[|u| + 1..] && v' == (u' + "_" + v')[|u| + 1..];
  }

  /** A probe's answer names its position and the index asked: different probes or indices give different strings. */
  lemma ProbeNameInjective(a: nat, i: int, b: nat, j: int)
    requires ProbeName(a, i) == ProbeName(b, j)
    ensures a == b && i == j
  {
    var x, y := Decimal(a) + "_" + IntText(i), Decimal(b) + "_" + IntText(j);
    assert x == ("arg" + x)[3..] && y == ("arg" + y)[3..];
    SplitAtUnderscore(Decimal(a), IntText(i), Decimal(b), IntText(j));
    DecimalInjective(a, b);
    IntTextInjective(i, j);
  }

  // ---------------------------------------------------------------- refreshing arguments

  /** A candidate argument: a probe, or a plain value (a string, a unicode string, a number). */
  datatype Arg<V> = ProbeArg(probe: Probe) | Plain(value: V)

  /** ProbeObject(argpos): no maxprobe, nothing probed. */
  function FreshProbe(argpos: nat): Probe
  {
    Probe(argpos, None, [])
  }

  /** refreshArgs: the same tuple, with every probe replaced by a fresh probe for the same position. */
  function RefreshArgs<V>(tup: seq<Arg<V>>): (r: seq<Arg<V>>)
    ensures |r| == |tup|
    ensures forall i :: 0 <= i < |tup| && tup[i].Plain? ==> r[i] == tup[i]
    ensures forall i :: 0 <= i < |tup| && tup[i].ProbeArg? ==> r[i] == ProbeArg(FreshProbe(tup[i].probe.argpos))
  {
    if |tup| == 0 then []
    else
      var head := if tup[0].ProbeArg? then ProbeArg(FreshProbe(tup[0].probe.argpos)) else tup[0];
      var rest := RefreshArgs(tup[1..]);
      assert forall i :: 1 <= i < |tup| ==> tup[i] == tup[1..][i - 1];
      [head] + rest
  }

  /** Refreshing twice is refreshing once. */
  lemma RefreshIdempotent<V>(tup: seq<Arg<V>>)
    ensures RefreshArgs(RefreshArgs(tup)) == RefreshArgs(tup)
  {
  }

  /** What a probe recorded is forgotten: refreshing after probing gives what refreshing before gives. */
  lemma RefreshForgetsProbing<V>(tup: seq<Arg<V>>, k: nat, idx: int)
    requires k < |tup| && tup[k].ProbeArg?
    ensures RefreshArgs(tup[k := ProbeArg(GetItem(tup[k].probe, idx).0)]) == RefreshArgs(tup)
  {
  }

  /** The values genArgsToTry offers besides a probe: a byte string, a unicode string, an int. */
  datatype TryValue = Str(s: string) | Unicode(u: string) | Int(i: int)

  /** genArgsToTry: a fresh probe, "arg<pos>" as str and as unicode, and 1000 + 10 * pos. */
  function GenArgsToTry(argpos: nat): (r: seq<Arg<TryValue>>)
    ensures |r| == 4 && r[0] == ProbeArg(FreshProbe(argpos))
    ensures forall i :: 1 <= i < 4 ==> r[i].Plain?
    ensures r[1].value.Str? && r[2].value.Unicode? && r[1].value.s == r[2].value.u
    ensures r[1] == Plain(Str("arg" + Decimal(argpos))) && r[2] == Plain(Unicode("arg" + Decimal(argpos)))
    ensures r[3] == Plain(Int(1000 + 10 * argpos))
  {
    var name := "arg" + Decimal(argpos);
    [ProbeArg(FreshProbe(argpos)), Plain(Str(name)), Plain(Unicode(name)), Plain(Int(1000 + argpos * 10))]
  }

  /** Candidates for different positions differ in every entry, and a fresh candidate list needs no refresh. */
  lemma GenArgsDistinct(a: nat, b: nat)
    requires a != b
    ensures forall i :: 0 <= i < 4 ==> GenArgsToTry(a)[i] != GenArgsToTry(b)[i]
    ensures RefreshArgs(GenArgsToTry(a)) == GenArgsToTry(a)
  {
    var ra := GenArgsToTry(a);
    var rb := GenArgsToTry(b);
    if ra[1] == rb[1] {
      assert "arg" + Decimal(a) == "arg" + Decimal(b);
      assert Decimal(a) == ("arg" + Decimal(a))[3..];
      assert Decimal(b) == ("arg" + Decimal(b))[3..];
      DecimalInjective(a, b);
    }
  }

  // ---------------------------------------------------------------- the argc guard of __init__

  /** The condition written before a group of assignments in the generated __init__. */
  datatype Guard = Always | Equals(k: int) | AtMost(k: int) | AtLeast(k: int) | Between(lo: int, hi: int) | OneOf(counts: seq<int>)

  /** range(lo, hi). */
  function Range(lo: int, hi: int): (r: seq<int>)
    ensures |r| == if lo <= hi then hi - lo else 0
    ensures forall i :: 0 <= i < |r| ==> r[i] == lo + i
  {
    if hi <= lo then [] else seq(hi - lo, i requires 0 <= i < hi - lo => lo + i)
  }

  /**
   * The guard for a group used by the argument counts `argcounts`: none
   * when the group holds as many counts as were probed; else an equality
   * for one count, and for consecutive counts a bound from above when they
   * start at 0, a bound from below when they end at the last probed count,
   * two bounds otherwise; else membership.
   */
  function GuardFor(argcounts: seq<int>, maxprobe: int): (r: Guard)
    requires |argcounts| > 0
  {
    var first := argcounts[0];
    var last := argcounts[|argcounts| - 1];
    var dense := Range(first, last + 1) == argcounts;
    if |argcounts| == maxprobe then Always
    else if |argcounts| == 1 then Equals(first)
    else if dense && first == 0 then AtMost(last)
    else if dense && last == maxprobe - 1 then AtLeast(first)
    else if dense then Between(first, last)
    else OneOf(argcounts)
  }

  /** Whether the generated code runs the group for argc arguments. */
  predicate Admits(g: Guard, argc: int)
  {
    match g
    case Always => true
    case Equals(k) => argc == k
    case AtMost(k) => argc <= k
    case AtLeast(k) => argc >= k
    case Between(lo, hi) => lo <= argc <= hi
    case OneOf(counts) => argc in counts
  }

  predicate Increasing(s: seq<int>)
  {
    forall i, j :: 0 <= i < j < |s| ==> s[i] < s[j]
  }

  /** The counts a group can hold: increasing, each a probed count in [0, maxprobe). */
  predicate CountsOf(argcounts: seq<int>, maxprobe: int)
  {
    |argcounts| > 0 && Increasing(argcounts) && forall i :: 0 <= i < |argcounts| ==> 0 <= argcounts[i] < maxprobe
  }

  /** Increasing integers grow by at least the distance between their positions. */
  lemma {:induction false} IncreasingGap(s: seq<int>, i: nat, j: nat)
    requires Increasing(s) && i <= j < |s|
    ensures s[j] - s[i] >= j - i
    decreases j - i
  {
    if i < j {
      IncreasingGap(s, i + 1, j);
    }
  }

  /** Counts of full length are all of range(maxprobe). */
  lemma FullCounts(argcounts: seq<int>, maxprobe: int)
    requires CountsOf(argcounts, maxprobe) && |argcounts| == maxprobe
    ensures forall i :: 0 <= i < |argcounts| ==> argcounts[i] == i
  {
    forall i | 0 <= i < |argcounts|
      ensures argcounts[i] == i
    {
      IncreasingGap(argcounts, 0, i);
      IncreasingGap(argcounts, i, |argcounts| - 1);
    }
  }

  /** One group of each shape, with five counts probed. */
  lemma GuardForExamples()
    ensures GuardFor([0, 1, 2, 3, 4], 5) == Always
    ensures GuardFor([2], 5) == Equals(2)
    ensures GuardFor([0, 1, 2], 5) == AtMost(2)
    ensures GuardFor([3, 4], 5) == AtLeast(3)
    ensures GuardFor([1, 2, 3], 5) == Between(1, 3)
    ensures GuardFor([0, 2], 5) == OneOf([0, 2])
  {
    assert Range(0, 3) == [0, 1, 2];
    assert Range(3, 5) == [3, 4];
    assert Range(1, 4) == [1, 2, 3];
    assert Range(0, 3) != [0, 2];
  }

  /** The generated guard runs a group for exactly the argument counts recorded for it, among those probed. */
  lemma GuardAdmitsExactly(argcounts: seq<int>, maxprobe: int, argc: int)
    requires CountsOf(argcounts, maxprobe) && 0 <= argc < maxprobe
    ensures Admits(GuardFor(argcounts, maxprobe), argc) <==> argc in argcounts
  {
    var first := argcounts[0];
    var n := |argcounts|;
    var last := argcounts[n - 1];
    IncreasingGap(argcounts, 0, n - 1);
    if n == maxprobe {
      FullCounts(argcounts, maxprobe);
      assert argcounts[argc] == argc;
    } else if Range(first, last + 1) == argcounts && n > 1 {
      assert forall i :: 0 <= i < n ==> argcounts[i] == first + i;
      if first <= argc <= last {
        assert argcounts[argc - first] == argc;
      }
    }
  }

  /** Line 260: `argc = len(args)` is written when some group needs a guard. */
  function NeedsArgc(keys: seq<seq<int>>, maxprobe: int): bool
    requires |keys| > 0
  {
    |keys| > 1 || |keys[0]| != maxprobe
  }

  /** With distinct groups of probed counts, argc is computed exactly when some group's guard uses it. */
  lemma NeedsArgcExactly(keys: seq<seq<int>>, maxprobe: int)
    requires |keys| > 0 && NoDup(keys) && forall i :: 0 <= i < |keys| ==> CountsOf(keys[i], maxprobe)
    ensures NeedsArgc(keys, maxprobe) <==> exists i :: 0 <= i < |keys| && |keys[i]| > 0 && GuardFor(keys[i], maxprobe) != Always
  {
    if |keys| > 1 && GuardFor(keys[0], maxprobe) == Always {
      if GuardFor(keys[1], maxprobe) == Always {
        FullCounts(keys[0], maxprobe);
        FullCounts(keys[1], maxprobe);
        assert false;
      }
    }
  }
}
