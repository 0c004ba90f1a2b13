/** Constants of a schema: definitions in terms of each other, and what they come to (ser/eval.c). */
module Constants {
  import opened Collections

  /** A definition is a number or the name of another constant. */
  datatype Value = Literal(n: nat) | Ident(name: nat)

  type Definitions = map<nat, Value>

  datatype Item = Constant(name: nat, value: Value) | Other

  datatype Error = Duplicate(name: nat) | Unknown(name: nat) | Cycle(idents: seq<nat>)

  datatype Resolved = Valid(v: nat) | Invalid

  // ----- chains of references

  /** Constants each of which is defined as the next. */
  ghost predicate IsChain(u: Definitions, p: seq<nat>) {
    && p != [] && (forall k :: 0 <= k < |p| ==> p[k] in u)
    && forall j, k {:trigger p[j], p[k]} :: 0 <= j && k == j + 1 && k < |p| ==> u[p[j]] == Ident(p[k])
  }

  /** Following references from x comes by the definition w. */
  ghost predicate Reaches(u: Definitions, x: nat, w: Value) {
    exists p: seq<nat> :: IsChain(u, p) && p[0] == x && u[p[|p| - 1]] == w
  }

  /** Constants defined in terms of each other, each listed once and in the order of their references. */
  ghost predicate IsCycle(u: Definitions, c: seq<nat>) {
    IsChain(u, c) && Distinct(c) && u[c[|c| - 1]] == Ident(c[0])
  }

  ghost predicate OnCycle(u: Definitions, x: nat) {
    exists c: seq<nat> :: IsCycle(u, c) && x in c
  }

  /** One reference further. */
  lemma ReachesOn(u: Definitions, x: nat, y: nat, w: Value)
    requires x in u && u[x] == Ident(y) && w != Ident(y)
    ensures Reaches(u, x, w) <==> Reaches(u, y, w)
  {
    if Reaches(u, x, w) {
      var p: seq<nat> :| IsChain(u, p) && p[0] == x && u[p[|p| - 1]] == w;
      assert |p| > 1 && p[1] == y;
      assert IsChain(u, p[1..]);
    }
    if Reaches(u, y, w) {
      var p: seq<nat> :| IsChain(u, p) && p[0] == y && u[p[|p| - 1]] == w;
      var q := [x] + p;
      assert IsChain(u, q) && q[|q| - 1] == p[|p| - 1];
    }
  }

  lemma FirstReference(u: Definitions, p: seq<nat>)
    requires IsChain(u, p)
    ensures |p| > 1 ==> u[p[0]] == Ident(p[1])
  {
  }

  /** Along a chain, as long as w is not among the references passed. */
  lemma {:induction false} ReachesAlong(u: Definitions, p: seq<nat>, w: Value)
    requires IsChain(u, p) && forall k :: 0 < k < |p| ==> w != Ident(p[k])
    ensures Reaches(u, p[0], w) <==> Reaches(u, p[|p| - 1], w)
    decreases |p|
  {
    hide Reaches;
    if |p| > 1 {
      var q := p[1..];
      assert IsChain(u, q) && q[|q| - 1] == p[|p| - 1];
      assert forall k :: 0 < k < |q| ==> q[k] == p[k + 1];
      ReachesAlong(u, q, w);
      ReachesOn(u, p[0], p[1], w);
    }
  }

  lemma NextInCycle(u: Definitions, c: seq<nat>, x: nat) returns (y: nat)
    requires IsCycle(u, c) && x in c
    ensures x in u && u[x] == Ident(y) && y in c
  {
    var k :| 0 <= k < |c| && c[k] == x;
    if k == |c| - 1 {
      y := c[0];
    } else {
      y := c[k + 1];
    }
  }

  /** A cycle is never left. */
  lemma {:induction false} StaysInCycle(u: Definitions, c: seq<nat>, p: seq<nat>)
    requires IsCycle(u, c) && IsChain(u, p) && p[0] in c
    ensures p[|p| - 1] in c
    decreases |p|
  {
    hide IsCycle;
    if |p| > 1 {
      var y := NextInCycle(u, c, p[0]);
      assert u[p[0]] == Ident(p[1]);
      assert IsChain(u, p[1..]);
      StaysInCycle(u, c, p[1..]);
    }
  }

  lemma OnCycleReaches(u: Definitions, x: nat, w: Value)
    requires OnCycle(u, x) && Reaches(u, x, w)
    ensures w.Ident? && w.name in u
  {
    hide IsCycle;
    var c: seq<nat> :| IsCycle(u, c) && x in c;
    var p: seq<nat> :| IsChain(u, p) && p[0] == x && u[p[|p| - 1]] == w;
    StaysInCycle(u, c, p);
    var y := NextInCycle(u, c, p[|p| - 1]);
    var _ := NextInCycle(u, c, y);
  }

  /** The end of a cycle again from anywhere in it. */
  lemma RestOfCycle(u: Definitions, c: seq<nat>, i: nat, j: nat) returns (p: seq<nat>)
    requires IsCycle(u, c) && i < |c| && j < |c|
    ensures IsChain(u, p) && p[0] == c[i] && p[|p| - 1] == c[j]
  {
    if i <= j {
      p := c[i..j + 1];
    } else {
      p := c[i..] + c[..j + 1];
    }
  }

  /** Two cycles that share a constant have the same members. */
  lemma SameCycle(u: Definitions, c: seq<nat>, d: seq<nat>, x: nat, y: nat)
    requires IsCycle(u, c) && IsCycle(u, d) && y in c && y in d && x in c
    ensures x in d
  {
    var i :| 0 <= i < |c| && c[i] == y;
    var j :| 0 <= j < |c| && c[j] == x;
    var p := RestOfCycle(u, c, i, j);
    StaysInCycle(u, d, p);
  }

  /** If x is on a cycle, the cycle any chain from x runs into is that one. */
  lemma IntoOwnCycle(u: Definitions, p: seq<nat>, y: nat, d: seq<nat>)
    requires IsChain(u, p) && u[p[|p| - 1]] == Ident(y) && OnCycle(u, p[0]) && IsCycle(u, d) && y in d
    ensures p[0] in d
  {
    hide IsCycle;
    var c: seq<nat> :| IsCycle(u, c) && p[0] in c;
    StaysInCycle(u, c, p);
    var z := NextInCycle(u, c, p[|p| - 1]);
    SameCycle(u, c, d, p[0], y);
  }

  // ----- what has been found

  /** Constants that have been settled are settled right: valid if their chain ends at a number, with that number. */
  ghost predicate Correct(u: Definitions, constants: map<nat, Resolved>) {
    forall x :: x in constants ==> x in u && IsRight(u, x, constants[x])
  }

  ghost predicate IsRight(u: Definitions, x: nat, r: Resolved) {
    match r
    case Valid(v) => Reaches(u, x, Literal(v))
    case Invalid => forall v :: !Reaches(u, x, Literal(v))
  }

  lemma {:induction false} LiteralIsUnique(u: Definitions, x: nat, v: nat, v': nat)
    requires Reaches(u, x, Literal(v)) && Reaches(u, x, Literal(v'))
    ensures v == v'
  {
    var p: seq<nat> :| IsChain(u, p) && p[0] == x && u[p[|p| - 1]] == Literal(v);
    ReachesAlong(u, p, Literal(v'));
    var q: seq<nat> :| IsChain(u, q) && q[0] == p[|p| - 1] && u[q[|q| - 1]] == Literal(v');
    FirstReference(u, q);
  }

  /** Every reported cycle is one, no two share a constant, and the members are settled. */
  ghost predicate CyclesAreReal(u: Definitions, constants: map<nat, Resolved>, errors: seq<Error>) {
    && (forall i :: 0 <= i < |errors| && errors[i].Cycle? ==>
          IsCycle(u, errors[i].idents) && forall x :: x in errors[i].idents ==> x in constants)
    && forall i, j :: 0 <= i < j < |errors| && errors[i].Cycle? && errors[j].Cycle? ==>
         Elements(errors[i].idents) !! Elements(errors[j].idents)
  }

  ghost predicate IsListed(errors: seq<Error>, x: nat) {
    exists i :: 0 <= i < |errors| && errors[i].Cycle? && x in errors[i].idents
  }

  /** Every settled constant that is on a cycle is listed. */
  ghost predicate CyclesAreListed(u: Definitions, constants: map<nat, Resolved>, errors: seq<Error>) {
    forall x :: x in constants && OnCycle(u, x) ==> IsListed(errors, x)
  }

  ghost predicate IsReferredTo(u: Definitions, n: nat) {
    exists x :: x in u && u[x] == Ident(n)
  }

  /** Unknown names that settled constants lead to are reported, and nothing that is defined or not referred to. */
  ghost predicate UnknownsAreReported(u: Definitions, constants: map<nat, Resolved>, errors: seq<Error>) {
    && (forall i :: 0 <= i < |errors| && errors[i].Unknown? ==> errors[i].name !in u && IsReferredTo(u, errors[i].name))
    && forall x, n :: x in constants && n !in u && Reaches(u, x, Ident(n)) ==> Unknown(n) in errors
  }

  ghost predicate Settled(u: Definitions, constants: map<nat, Resolved>, errors: seq<Error>) {
    && Correct(u, constants) && CyclesAreReal(u, constants, errors)
    && CyclesAreListed(u, constants, errors) && UnknownsAreReported(u, constants, errors)
  }

  /** What has to be known of a constant before it may be settled. */
  ghost predicate IsKnown(u: Definitions, x: nat, r: Resolved, errors: seq<Error>) {
    && x in u && IsRight(u, x, r) && (OnCycle(u, x) ==> IsListed(errors, x))
    && forall n :: n !in u && Reaches(u, x, Ident(n)) ==> Unknown(n) in errors
  }

  lemma SettledIsKnown(u: Definitions, constants: map<nat, Resolved>, errors: seq<Error>, x: nat)
    requires Settled(u, constants, errors) && x in constants
    ensures IsKnown(u, x, constants[x], errors)
  {
    hide IsCycle, Reaches, IsListed, OnCycle, IsRight;
  }

  lemma KnownIsSettled(u: Definitions, constants: map<nat, Resolved>, errors: seq<Error>, x: nat, r: Resolved)
    requires Settled(u, constants, errors) && IsKnown(u, x, r, errors)
    ensures Settled(u, constants[x := r], errors)
  {
    hide IsCycle, Reaches, IsListed, OnCycle, IsRight;
  }

  lemma ReportUnknown(u: Definitions, constants: map<nat, Resolved>, errors: seq<Error>, n: nat)
    requires Settled(u, constants, errors) && n !in u && IsReferredTo(u, n)
    ensures Settled(u, constants, errors + [Unknown(n)])
  {
    hide IsCycle, Reaches, OnCycle, IsRight;
    forall x | IsListed(errors, x) ensures IsListed(errors + [Unknown(n)], x) {
      var i :| 0 <= i < |errors| && errors[i].Cycle? && x in errors[i].idents;
      assert (errors + [Unknown(n)])[i] == errors[i];
    }
  }

  /** Constants with the members of a cycle marked. */
  function Marked(constants: map<nat, Resolved>, c: seq<nat>): (r: map<nat, Resolved>)
    ensures r.Keys == constants.Keys + Elements(c)
    ensures forall x :: x in r ==> r[x] == if x in c then Invalid else constants[x]
  {
    map x | x in constants.Keys + Elements(c) :: if x in c then Invalid else constants[x]
  }

  lemma MembersAreKnown(u: Definitions, c: seq<nat>, x: nat)
    requires IsCycle(u, c) && x in c
    ensures x in u && IsRight(u, x, Invalid) && forall n :: n !in u ==> !Reaches(u, x, Ident(n))
  {
    hide IsCycle, Reaches;
    var _ := NextInCycle(u, c, x);
    assert OnCycle(u, x);
    forall v ensures !Reaches(u, x, Literal(v)) {
      if Reaches(u, x, Literal(v)) {
        OnCycleReaches(u, x, Literal(v));
      }
    }
    forall n | n !in u ensures !Reaches(u, x, Ident(n)) {
      if Reaches(u, x, Ident(n)) {
        OnCycleReaches(u, x, Ident(n));
      }
    }
  }

  lemma StillListed(errors: seq<Error>, c: seq<nat>, x: nat)
    requires IsListed(errors, x) || x in c
    ensures IsListed(errors + [Cycle(c)], x)
  {
    var all := errors + [Cycle(c)];
    if IsListed(errors, x) {
      var i :| 0 <= i < |errors| && errors[i].Cycle? && x in errors[i].idents;
      assert all[i] == errors[i];
    } else {
      assert all[|errors|].idents == c;
    }
  }

  lemma ReportCycle(u: Definitions, constants: map<nat, Resolved>, errors: seq<Error>, c: seq<nat>)
    requires Settled(u, constants, errors) && IsCycle(u, c) && forall x :: x in c ==> x !in constants
    ensures Settled(u, Marked(constants, c), errors + [Cycle(c)])
  {
    hide IsCycle, Reaches, OnCycle, IsRight, IsListed;
    var marked, all := Marked(constants, c), errors + [Cycle(c)];
    forall x | x in marked
      ensures x in u && IsRight(u, x, marked[x]) && (OnCycle(u, x) ==> IsListed(all, x))
      ensures forall n :: n !in u && Reaches(u, x, Ident(n)) ==> Unknown(n) in all
    {
      if x in c {
        MembersAreKnown(u, c, x);
        StillListed(errors, c, x);
      } else {
        SettledIsKnown(u, constants, errors, x);
        if OnCycle(u, x) {
          StillListed(errors, c, x);
        }
      }
    }
    assert CyclesAreReal(u, marked, all);
  }

  // ----- the four ways a chain of references can end

  lemma LastIsLiteral(u: Definitions, z: nat, w: Value)
    requires z in u && u[z].Literal? && Reaches(u, z, w)
    ensures w == u[z]
  {
    var q: seq<nat> :| IsChain(u, q) && q[0] == z && u[q[|q| - 1]] == w;
    FirstReference(u, q);
  }

  lemma LastIsUnknown(u: Definitions, z: nat, y: nat, w: Value)
    requires z in u && u[z] == Ident(y) && y !in u && Reaches(u, z, w)
    ensures w == Ident(y)
  {
    var q: seq<nat> :| IsChain(u, q) && q[0] == z && u[q[|q| - 1]] == w;
    FirstReference(u, q);
  }

  lemma EndsAtLiteral(u: Definitions, p: seq<nat>, errors: seq<Error>)
    requires IsChain(u, p) && u[p[|p| - 1]].Literal?
    ensures IsKnown(u, p[0], Valid(u[p[|p| - 1]].n), errors)
  {
    var x, z := p[0], p[|p| - 1];
    assert Reaches(u, x, u[z]);
    hide Reaches, OnCycle;
    if OnCycle(u, x) {
      OnCycleReaches(u, x, u[z]);
    }
    forall n | n !in u ensures !Reaches(u, x, Ident(n)) {
      if Reaches(u, x, Ident(n)) {
        ReachesAlong(u, p, Ident(n));
        LastIsLiteral(u, z, Ident(n));
      }
    }
  }

  lemma EndsAtUnknown(u: Definitions, p: seq<nat>, y: nat, errors: seq<Error>)
    requires IsChain(u, p) && u[p[|p| - 1]] == Ident(y) && y !in u && Unknown(y) in errors
    ensures IsKnown(u, p[0], Invalid, errors)
  {
    var x, z := p[0], p[|p| - 1];
    assert Reaches(u, x, Ident(y));
    hide Reaches, OnCycle;
    if OnCycle(u, x) {
      OnCycleReaches(u, x, Ident(y));
    }
    forall n | n !in u && Reaches(u, x, Ident(n)) ensures n == y {
      ReachesAlong(u, p, Ident(n));
      LastIsUnknown(u, z, y, Ident(n));
    }
    forall v ensures !Reaches(u, x, Literal(v)) {
      if Reaches(u, x, Literal(v)) {
        ReachesAlong(u, p, Literal(v));
        LastIsUnknown(u, z, y, Literal(v));
      }
    }
  }

  /** What is known of y is known of everything that leads to it. */
  lemma EndsAtKnown(u: Definitions, p: seq<nat>, y: nat, r: Resolved, errors: seq<Error>, constants: map<nat, Resolved>)
    requires IsChain(u, p) && u[p[|p| - 1]] == Ident(y) && IsKnown(u, y, r, errors) && CyclesAreReal(u, constants, errors)
    ensures IsKnown(u, p[0], r, errors)
  {
    hide Reaches, OnCycle, IsCycle;
    var x, z := p[0], p[|p| - 1];
    forall w: Value | w.Literal? || w.name !in u ensures Reaches(u, x, w) <==> Reaches(u, y, w) {
      ReachesAlong(u, p, w);
      ReachesOn(u, z, y, w);
    }
    if OnCycle(u, x) {
      CycleGoesOn(u, p, y);
      var i :| 0 <= i < |errors| && errors[i].Cycle? && y in errors[i].idents;
      IntoOwnCycle(u, p, y, errors[i].idents);
    }
  }

  lemma CycleGoesOn(u: Definitions, p: seq<nat>, y: nat)
    requires IsChain(u, p) && u[p[|p| - 1]] == Ident(y) && OnCycle(u, p[0])
    ensures OnCycle(u, y)
  {
    hide IsCycle;
    var c: seq<nat> :| IsCycle(u, c) && p[0] in c;
    StaysInCycle(u, c, p);
    var z := NextInCycle(u, c, p[|p| - 1]);
  }

  // ----- the evaluator

  /** The definition of every name that counts: the last one. */
  function LastDefinitions(items: seq<Item>): Definitions
    decreases |items|
  {
    if items == [] then map[]
    else
      var before := LastDefinitions(items[..|items| - 1]);
      match items[|items| - 1]
      case Constant(name, value) => before[name := value]
      case Other => before
  }

  predicate IsDuplicate(before: seq<Item>, item: Item) {
    item.Constant? && item.name in LastDefinitions(before)
  }

  /** A name is bound to the value of the last item that defines it. */
  lemma {:induction false} BoundByLast(items: seq<Item>)
    ensures forall i :: 0 <= i < |items| && items[i].Constant? ==> items[i].name in LastDefinitions(items)
    ensures forall x :: x in LastDefinitions(items) ==>
              exists i :: 0 <= i < |items| && items[i] == Constant(x, LastDefinitions(items)[x]) &&
                forall j :: i < j < |items| ==> !IsDefinition(items[j], x)
    decreases |items|
  {
    if items != [] {
      var last := |items| - 1;
      var before := items[..last];
      BoundByLast(before);
      forall x | x in LastDefinitions(items)
        ensures exists i :: 0 <= i < |items| && items[i] == Constant(x, LastDefinitions(items)[x]) &&
                  forall j :: i < j < |items| ==> !IsDefinition(items[j], x)
      {
        if IsDefinition(items[last], x) {
          assert items[last] == Constant(x, LastDefinitions(items)[x]);
        } else {
          var i :| 0 <= i < |before| && before[i] == Constant(x, LastDefinitions(before)[x]) &&
            forall j :: i < j < |before| ==> !IsDefinition(before[j], x);
          assert items[i] == before[i];
        }
      }
    }
  }

  /** An item is reported and removed exactly if an earlier one defines its name. */
  lemma RemovedIfDefinedBefore(items: seq<Item>, i: nat)
    requires i < |items|
    ensures IsDuplicate(items[..i], items[i]) <==>
            items[i].Constant? && exists j :: 0 <= j < i && IsDefinition(items[j], items[i].name)
  {
    var before := items[..i];
    BoundByLast(before);
    if items[i].Constant? && items[i].name in LastDefinitions(before) {
      var j :| 0 <= j < |before| && before[j] == Constant(items[i].name, LastDefinitions(before)[items[i].name]);
      assert items[j] == before[j];
    }
    if j :| 0 <= j < i && items[i].Constant? && IsDefinition(items[j], items[i].name) {
      assert before[j] == items[j];
    }
  }

  /** The items without those that define a name again. */
  function Kept(items: seq<Item>): seq<Item>
    decreases |items|
  {
    if items == [] then []
    else
      var before := items[..|items| - 1];
      Kept(before) + (if IsDuplicate(before, items[|items| - 1]) then [] else [items[|items| - 1]])
  }

  function Duplicates(items: seq<Item>): seq<Error>
    decreases |items|
  {
    if items == [] then []
    else
      var before, last := items[..|items| - 1], items[|items| - 1];
      Duplicates(before) + (if IsDuplicate(before, last) then [Duplicate(last.name)] else [])
  }

  lemma OneMoreItem(before: seq<Item>, item: Item)
    ensures var all := before + [item];
            && LastDefinitions(all) ==
               (match item { case Constant(name, value) => LastDefinitions(before)[name := value] case Other => LastDefinitions(before) })
            && Kept(all) == Kept(before) + (if IsDuplicate(before, item) then [] else [item])
            && Duplicates(all) == Duplicates(before) + (if IsDuplicate(before, item) then [Duplicate(item.name)] else [])
  {
    assert (before + [item])[..|before|] == before;
  }

  lemma {:induction false} KeptDefinesAll(items: seq<Item>)
    ensures forall x ::
              x in LastDefinitions(items) <==> exists i :: 0 <= i < |Kept(items)| && IsDefinition(Kept(items)[i], x)
    decreases |items|
  {
    if items != [] {
      var before, item := items[..|items| - 1], items[|items| - 1];
      KeptDefinesAll(before);
      var kept, all := Kept(before), Kept(items);
      forall x | x in LastDefinitions(items) ensures exists i :: 0 <= i < |all| && IsDefinition(all[i], x) {
        if x in LastDefinitions(before) {
          var i :| 0 <= i < |kept| && IsDefinition(kept[i], x);
          assert all[i] == kept[i];
        } else {
          assert all[|all| - 1] == item;
        }
      }
      forall i, x | 0 <= i < |all| && IsDefinition(all[i], x) ensures x in LastDefinitions(items) {
        if i < |kept| {
          assert all[i] == kept[i];
        }
      }
    }
  }

  predicate IsDefinition(item: Item, x: nat) {
    item.Constant? && item.name == x
  }

  /** Items seen and kept, before those still to be seen. */
  lemma NextItem(items: seq<Item>, kept: seq<Item>, all: seq<Item>, m: nat)
    requires m <= |all| && items == kept + all[m..] && |kept| < |items|
    ensures m < |all| && items[|kept|] == all[m] && all[..m + 1] == all[..m] + [all[m]]
    ensures items == kept + [all[m]] + all[m + 1..] && kept == kept + []
    ensures items[..|kept|] + items[|kept| + 1..] == kept + all[m + 1..]
  {
  }

  lemma NoItems()
    ensures LastDefinitions([]) == map[] && Kept([]) == [] && Duplicates([]) == []
  {
  }

  lemma DuplicateIs(before: seq<Item>, item: Item)
    ensures IsDuplicate(before, item) <==> item.Constant? && item.name in LastDefinitions(before)
  {
  }

  lemma SettledIsReal(u: Definitions, constants: map<nat, Resolved>, errors: seq<Error>)
    requires Settled(u, constants, errors)
    ensures CyclesAreReal(u, constants, errors)
  {
  }

  lemma CycleStep(u: Definitions, c: seq<nat>, k: nat)
    requires IsCycle(u, c) && 0 < k <= |c|
    ensures Target(u, c[k - 1]) == (if k == |c| then c[0] else c[k]) && (k < |c| ==> c[k] != c[0])
  {
    if k < |c| {
      assert u[c[k - 1]] == Ident(c[k]);
    }
  }

  lemma MarkOneMore(constants: map<nat, Resolved>, c: seq<nat>, x: nat)
    ensures Marked(constants, c + [x]) == Marked(constants, c)[x := Invalid] && Marked(constants, []) == constants
  {
    ElementsOfAppend(c, x);
  }

  /** A reference back into a chain closes a cycle. */
  lemma CycleIn(u: Definitions, p: seq<nat>, y: nat, constants: map<nat, Resolved>) returns (c: seq<nat>)
    requires IsChain(u, p) && Distinct(p) && u[p[|p| - 1]] == Ident(y) && y in p && y !in constants
    requires forall k :: 0 < k < |p| ==> p[k] !in constants
    ensures IsCycle(u, c) && c != [] && c[0] == y && forall x :: x in c ==> x !in constants
  {
    var j :| 0 <= j < |p| && p[j] == y;
    c := p[j..];
  }

  lemma LongerChain(u: Definitions, p: seq<nat>, y: nat)
    requires IsChain(u, p) && Distinct(p) && u[p[|p| - 1]] == Ident(y) && y in u && y !in p
    ensures IsChain(u, p + [y]) && Distinct(p + [y]) && Elements(p + [y]) == Elements(p) + {y}
  {
  }

  class Evaluator {
    var items: seq<Item>
    var unconsts: Definitions
    var constants: map<nat, Resolved>
    var names: set<nat>
    var errors: seq<Error>

    constructor (items: seq<Item>)
      ensures this.items == items && errors == [] && constants == map[] && unconsts == map[]
    {
      this.items := items;
      unconsts, constants, names, errors := map[], map[], {}, [];
    }

    /** The first loop: definitions by name, without duplicates. */
    method LoadConstants()
      requires errors == [] && unconsts == map[]
      modifies this`items, this`unconsts, this`errors
      ensures unconsts == LastDefinitions(old(items)) && items == Kept(old(items)) && errors == Duplicates(old(items))
    {
      hide IsDuplicate, Kept, Duplicates, LastDefinitions;
      ghost var m, all := 0, items;
      NoItems();
      assert all[..0] == [];
      var i := 0;
      while i < |items|
        invariant m <= |all| && i == |Kept(all[..m])| && items == Kept(all[..m]) + all[m..]
        invariant unconsts == LastDefinitions(all[..m]) && errors == Duplicates(all[..m])
        decreases |items| - i
      {
        NextItem(items, Kept(all[..m]), all, m);
        var item := items[i];
        OneMoreItem(all[..m], item);
        DuplicateIs(all[..m], item);
        match item {
          case Other =>
            i := i + 1;
          case Constant(name, value) =>
            if name in unconsts {
              errors := errors + [Duplicate(name)];
              items := items[..i] + items[i + 1..];
            } else {
              i := i + 1;
            }
            unconsts := unconsts[name := value];
        }
        m := m + 1;
      }
      assert all[..m] == all;
    }

    /** Lists the cycle through start and marks its members. */
    method WalkCycle(start: nat, ghost c: seq<nat>)
      requires c != [] && c[0] == start && IsCycle(unconsts, c)
      modifies this`constants, this`errors
      ensures constants == Marked(old(constants), c) && errors == old(errors) + [Cycle(c)]
    {
      hide IsCycle, Marked;
      CycleStep(unconsts, c, 1);
      MarkOneMore(constants, [], start);
      var idents: seq<nat> := [start];
      constants := constants[start := Invalid];
      var cur := Target(unconsts, start);
      assert c[..1] == [] + [start] == [start];
      while cur != start
        invariant errors == old(errors)
        invariant 0 < |idents| <= |c| && idents == c[..|idents|] && constants == Marked(old(constants), idents)
        invariant if |idents| == |c| then cur == start else cur == c[|idents|] && cur != start
        decreases |c| - |idents|
      {
        assert c[..|idents| + 1] == idents + [cur];
        CycleStep(unconsts, c, |idents| + 1);
        MarkOneMore(old(constants), idents, cur);
        idents := idents + [cur];
        constants := constants[cur := Invalid];
        cur := Target(unconsts, cur);
      }
      assert idents == c;
      errors := errors + [Cycle(idents)];
    }

    /** Follows the definition of one constant. */
    method ResolveOne(x: nat)
      requires x in unconsts && Settled(unconsts, constants, errors)
      modifies this`constants, this`names, this`errors
      ensures Settled(unconsts, constants, errors) && x in constants && old(constants.Keys) <= constants.Keys
      ensures old(errors) <= errors && forall i :: |old(errors)| <= i < |errors| ==> !errors[i].Duplicate?
    {
      hide Settled, IsKnown, IsCycle;
      names := {x};
      ghost var u, p := unconsts, [x];
      assert IsChain(u, p);
      var value := unconsts[x];
      var resolution := Invalid;
      var done := false;
      while value.Ident? && !done
        invariant unconsts == u && IsChain(u, p) && p[0] == x && Distinct(p) && names == Elements(p)
        invariant value == u[p[|p| - 1]]
        invariant Settled(u, constants, errors) && old(constants.Keys) <= constants.Keys && old(errors) <= errors
        invariant forall i :: |old(errors)| <= i < |errors| ==> !errors[i].Duplicate?
        invariant done ==> IsKnown(u, x, resolution, errors)
        invariant !done ==> resolution == Invalid && forall k :: 0 < k < |p| ==> p[k] !in constants
        decreases !done, u.Keys - names
      {
        var ident := value.name;
        if ident in constants {
          SettledIsKnown(u, constants, errors, ident);
          SettledIsReal(u, constants, errors);
          EndsAtKnown(u, p, ident, constants[ident], errors, constants);
          resolution := constants[ident];
          done := true;
        } else if ident in names {
          ghost var c := CycleIn(u, p, ident, constants);
          ReportCycle(u, constants, errors, c);
          WalkCycle(ident, c);
          assert ident in c;
          SettledIsKnown(u, constants, errors, ident);
          SettledIsReal(u, constants, errors);
          EndsAtKnown(u, p, ident, Invalid, errors, constants);
          done := true;
        } else if ident !in unconsts {
          assert p[|p| - 1] in u && IsReferredTo(u, ident);
          ReportUnknown(u, constants, errors, ident);
          errors := errors + [Unknown(ident)];
          EndsAtUnknown(u, p, ident, errors);
          done := true;
        } else {
          LongerChain(u, p, ident);
          p := p + [ident];
          names := names + {ident};
          value := unconsts[ident];
        }
      }
      if !done {
        EndsAtLiteral(u, p, errors);
        resolution := Valid(value.n);
      }
      KnownIsSettled(u, constants, errors, x, resolution);
      constants := constants[x := resolution];
    }

    /** resolve_constants */
    method ResolveConstants()
      requires errors == [] && unconsts == map[] && constants == map[]
      modifies this
      ensures unconsts == LastDefinitions(old(items)) && items == Kept(old(items))
      ensures Duplicates(old(items)) <= errors
      ensures forall i :: |Duplicates(old(items))| <= i < |errors| ==> !errors[i].Duplicate?
      ensures constants.Keys == unconsts.Keys && Settled(unconsts, constants, errors)
    {
      hide Settled, LastDefinitions, Kept, Duplicates;
      LoadConstants();
      NothingSettled(unconsts, old(items));
      ghost var u, kept := unconsts, items;
      KeptDefinesAll(old(items));
      var i := 0;
      while i < |items|
        invariant i <= |items| && items == kept && unconsts == u
        invariant Settled(u, constants, errors) && Duplicates(old(items)) <= errors
        invariant forall k :: |Duplicates(old(items))| <= k < |errors| ==> !errors[k].Duplicate?
        invariant forall j :: 0 <= j < i && items[j].Constant? ==> items[j].name in constants
      {
        match items[i] {
          case Other =>
          case Constant(name, value) =>
            assert IsDefinition(kept[i], name);
            ResolveOne(name);
        }
        i := i + 1;
      }
      SettledInside(u, constants, errors);
      assert constants.Keys == u.Keys;
    }
  }

  lemma NothingSettled(u: Definitions, items: seq<Item>)
    ensures Settled(u, map[], Duplicates(items))
  {
    OnlyDuplicates(items);
  }

  lemma {:induction false} OnlyDuplicates(items: seq<Item>)
    ensures forall i :: 0 <= i < |Duplicates(items)| ==> Duplicates(items)[i].Duplicate?
    decreases |items|
  {
    if items != [] {
      OnlyDuplicates(items[..|items| - 1]);
    }
  }

  lemma SettledInside(u: Definitions, constants: map<nat, Resolved>, errors: seq<Error>)
    requires Settled(u, constants, errors)
    ensures constants.Keys <= u.Keys
  {
  }

  // ----- what it comes to

  /** Once all constants are settled: a constant is valid with value v exactly if its chain of references ends at v;
      the cycles reported are cycles, share no constant, and there is one for every constant on a cycle; and every
      unknown name that a chain of references ends at is reported, and nothing known or not referred to. */
  lemma ResolutionIsExact(u: Definitions, constants: map<nat, Resolved>, errors: seq<Error>)
    requires Settled(u, constants, errors) && constants.Keys == u.Keys
    ensures forall x, v :: x in u ==> (constants[x] == Valid(v) <==> Reaches(u, x, Literal(v)))
    ensures forall i :: 0 <= i < |errors| && errors[i].Cycle? ==> IsCycle(u, errors[i].idents)
    ensures forall c: seq<nat> :: IsCycle(u, c) ==>
              exists i :: 0 <= i < |errors| && errors[i].Cycle? && Elements(errors[i].idents) == Elements(c)
    ensures forall i, j :: 0 <= i < j < |errors| && errors[i].Cycle? && errors[j].Cycle? ==>
              Elements(errors[i].idents) !! Elements(errors[j].idents)
    ensures forall x, n :: n !in u && Reaches(u, x, Ident(n)) ==> Unknown(n) in errors
    ensures forall i :: 0 <= i < |errors| && errors[i].Unknown? ==> errors[i].name !in u && IsReferredTo(u, errors[i].name)
  {
    ChainsAreSettled(u, constants, errors);
    forall x, v | x in u ensures constants[x] == Valid(v) <==> Reaches(u, x, Literal(v)) {
      ValueIsExact(u, constants, errors, x, v);
    }
    forall c: seq<nat> | IsCycle(u, c)
      ensures exists i :: 0 <= i < |errors| && errors[i].Cycle? && Elements(errors[i].idents) == Elements(c)
    {
      CycleIsReported(u, constants, errors, c);
    }
  }

  lemma ChainsAreSettled(u: Definitions, constants: map<nat, Resolved>, errors: seq<Error>)
    requires Settled(u, constants, errors) && constants.Keys == u.Keys
    ensures forall x, n :: n !in u && Reaches(u, x, Ident(n)) ==> Unknown(n) in errors
    ensures forall i :: 0 <= i < |errors| && errors[i].Unknown? ==> errors[i].name !in u && IsReferredTo(u, errors[i].name)
  {
    forall x, n | n !in u && Reaches(u, x, Ident(n)) ensures x in constants {
      var p: seq<nat> :| IsChain(u, p) && p[0] == x && u[p[|p| - 1]] == Ident(n);
    }
  }

  lemma ValueIsExact(u: Definitions, constants: map<nat, Resolved>, errors: seq<Error>, x: nat, v: nat)
    requires Settled(u, constants, errors) && x in constants
    ensures constants[x] == Valid(v) <==> Reaches(u, x, Literal(v))
  {
    hide Reaches, IsCycle, OnCycle, IsListed;
    assert IsRight(u, x, constants[x]);
    if Reaches(u, x, Literal(v)) && constants[x].Valid? {
      LiteralIsUnique(u, x, v, constants[x].v);
    }
  }

  lemma ListedIfOnCycle(u: Definitions, constants: map<nat, Resolved>, errors: seq<Error>, y: nat)
    requires Settled(u, constants, errors) && y in constants && OnCycle(u, y)
    ensures IsListed(errors, y)
    ensures forall i :: 0 <= i < |errors| && errors[i].Cycle? ==> IsCycle(u, errors[i].idents)
  {
    hide IsCycle, OnCycle, IsListed, Reaches;
  }

  lemma CycleIsReported(u: Definitions, constants: map<nat, Resolved>, errors: seq<Error>, c: seq<nat>)
    requires Settled(u, constants, errors) && constants.Keys == u.Keys && IsCycle(u, c)
    ensures exists i :: 0 <= i < |errors| && errors[i].Cycle? && Elements(errors[i].idents) == Elements(c)
  {
    hide Settled, Correct, CyclesAreReal;
    var y := c[0];
    assert OnCycle(u, y) && y in constants;
    ListedIfOnCycle(u, constants, errors, y);
    var i :| 0 <= i < |errors| && errors[i].Cycle? && y in errors[i].idents;
    var d := errors[i].idents;
    hide IsCycle;
    forall x ensures x in c <==> x in d {
      if x in c {
        SameCycle(u, c, d, x, y);
      }
      if x in d {
        SameCycle(u, d, c, x, y);
      }
    }
    assert Elements(d) == Elements(c);
  }

  function Target(u: Definitions, x: nat): nat {
    if x in u && u[x].Ident? then u[x].name else x
  }
}
