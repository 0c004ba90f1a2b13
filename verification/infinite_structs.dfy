/** Detection of structs that contain themselves without limiting indirection (ser/eval.c). */
module InfiniteStructs {
  import opened Collections
  import opened Digraph
  import opened Schema

  /** An error lists structs from the innermost one out, with the field of each that leads on. */
  datatype Report = Report(structs: seq<nat>, fields: seq<nat>)

  /** Field f of struct s holds a t, through nothing but unbounded arrays. */
  ghost predicate Holds(ts: TypeTable, s: nat, f: nat, t: nat)
    requires WellFormed(ts)
  {
    && IsStruct(ts, s) && f < |ts[s].fields|
    && ts[s].fields[f] < |ts|
    && IsStruct(ts, t) && Strip(ts, ts[s].fields[f]) == t
  }

  /** The listed structs lead from the last one, each by its listed field, to rec. */
  ghost predicate LeadsTo(ts: TypeTable, r: Report, rec: nat)
    requires WellFormed(ts)
  {
    && |r.structs| == |r.fields| > 0
    && Distinct(r.structs)
    && Holds(ts, r.structs[0], r.fields[0], rec)
    && forall j, k {:trigger r.structs[j], r.structs[k]} ::
         0 <= j && k == j + 1 && k < |r.structs| ==> Holds(ts, r.structs[k], r.fields[k], r.structs[j])
  }

  ghost predicate IsRealCycle(ts: TypeTable, r: Report)
    requires WellFormed(ts)
  {
    |r.structs| > 0 && LeadsTo(ts, r, r.structs[|r.structs| - 1])
  }

  /** The search is over at these structs: all they embed was looked at and none of it is rec. */
  ghost predicate Settled(ts: TypeTable, rec: nat, checked: set<nat>, done: set<nat>)
    requires WellFormed(ts)
  {
    forall n :: n in done ==> IsStruct(ts, n) && rec !in Embedded(ts, n) && Embedded(ts, n) <= checked
  }

  lemma FieldIsEmbedded(ts: TypeTable, s: nat, f: nat)
    requires WellFormed(ts) && IsStruct(ts, s) && f < |ts[s].fields|
    ensures ts[s].fields[f] < |ts|
    ensures var t := Strip(ts, ts[s].fields[f]);
            t < |ts| && (IsStruct(ts, t) ==> t in Embedded(ts, s) && Holds(ts, s, f, t))
  {
    assert ts[s].fields[f] in Children(ts[s]);
    ChildInTable(ts, s, ts[s].fields[f]);
  }

  lemma EmbeddedByField(ts: TypeTable, s: nat, t: nat)
    requires WellFormed(ts) && IsStruct(ts, s) && t in Embedded(ts, s)
    ensures exists k :: 0 <= k < |ts[s].fields| && ts[s].fields[k] < |ts| && t == Strip(ts, ts[s].fields[k])
  {
    assert InTable(ts, ts[s]);
    assert forall k :: 0 <= k < |ts[s].fields| ==> ts[s].fields[k] in Children(ts[s]);
  }

  /** What field k of str leads to was looked at and is not rec. */
  ghost predicate FieldDone(ts: TypeTable, rec: nat, str: nat, checked: set<nat>, k: nat)
    requires WellFormed(ts) && IsStruct(ts, str) && k < |ts[str].fields|
  {
    && ts[str].fields[k] < |ts|
    && var t := Strip(ts, ts[str].fields[k]);
       IsStruct(ts, t) ==> t != rec && t in checked
  }

  /** The search at str has come to its i-th field; all other structs it went through are settled. */
  ghost predicate Searched(ts: TypeTable, rec: nat, str: nat, checked: set<nat>, done: set<nat>, i: nat)
    requires WellFormed(ts) && IsStruct(ts, str)
  {
    && i <= |ts[str].fields|
    && Settled(ts, rec, checked, done)
    && forall k :: 0 <= k < i ==> FieldDone(ts, rec, str, checked, k)
  }

  lemma NothingNew(ts: TypeTable, rec: nat, str: nat, before: set<nat>, invalids: set<nat>)
    requires WellFormed(ts) && (str in before || str in invalids)
    ensures Settled(ts, rec, before + {str}, before + {str} - before - invalids)
  {
  }

  lemma SearchStarts(ts: TypeTable, rec: nat, str: nat, before: set<nat>, invalids: set<nat>)
    requires WellFormed(ts) && IsStruct(ts, str) && str !in before
    ensures Searched(ts, rec, str, before + {str}, before + {str} - before - {str} - invalids, 0)
    ensures str in StructGraph(ts).Keys
  {
  }

  lemma SearchGoesOn(ts: TypeTable, rec: nat, str: nat, before: set<nat>, after: set<nat>,
                      done: set<nat>, more: set<nat>, i: nat)
    requires WellFormed(ts) && IsStruct(ts, str) && before <= after
    requires Searched(ts, rec, str, before, done, i) && i < |ts[str].fields|
    requires Settled(ts, rec, after, more) && FieldDone(ts, rec, str, after, i)
    ensures Searched(ts, rec, str, after, done + more, i + 1)
  {
    forall k | 0 <= k < i ensures FieldDone(ts, rec, str, after, k) {
      assert FieldDone(ts, rec, str, before, k);
    }
  }

  lemma SearchSkips(ts: TypeTable, rec: nat, str: nat, checked: set<nat>, done: set<nat>, i: nat)
    requires WellFormed(ts) && IsStruct(ts, str)
    requires Searched(ts, rec, str, checked, done, i) && i < |ts[str].fields|
    requires ts[str].fields[i] < |ts| && !IsStruct(ts, Strip(ts, ts[str].fields[i]))
    ensures Searched(ts, rec, str, checked, done, i + 1)
  {
  }

  lemma SearchEnds(ts: TypeTable, rec: nat, str: nat, checked: set<nat>, done: set<nat>)
    requires WellFormed(ts) && IsStruct(ts, str)
    requires Searched(ts, rec, str, checked, done, |ts[str].fields|)
    ensures Settled(ts, rec, checked, done + {str})
  {
    forall t | t in Embedded(ts, str) ensures t != rec && t in checked {
      EmbeddedByField(ts, str, t);
      var k :| 0 <= k < |ts[str].fields| && ts[str].fields[k] < |ts| && t == Strip(ts, ts[str].fields[k]);
      assert FieldDone(ts, rec, str, checked, k);
    }
  }

  /** A search below field i came back empty-handed. */
  lemma FieldSearched(ts: TypeTable, rec: nat, str: nat, first: set<nat>, before: set<nat>, after: set<nat>,
                      invalids: set<nat>, i: nat)
    requires WellFormed(ts) && IsStruct(ts, str) && first <= before <= after && str in before && i < |ts[str].fields|
    requires Searched(ts, rec, str, before, before - first - {str} - invalids, i)
    requires Settled(ts, rec, after, after - before - invalids)
    requires ts[str].fields[i] < |ts| && Strip(ts, ts[str].fields[i]) in after - {rec}
    ensures Searched(ts, rec, str, after, after - first - {str} - invalids, i + 1)
  {
    hide Settled, Searched;
    var done := before - first - {str} - invalids;
    SearchGoesOn(ts, rec, str, before, after, done, after - before - invalids, i);
    assert after - first - {str} - invalids == done + (after - before - invalids);
  }

  /** All fields were searched. */
  lemma AllSearched(ts: TypeTable, rec: nat, str: nat, first: set<nat>, checked: set<nat>, invalids: set<nat>)
    requires WellFormed(ts) && IsStruct(ts, str) && str in checked && str !in first && str !in invalids
    requires Searched(ts, rec, str, checked, checked - first - {str} - invalids, |ts[str].fields|)
    ensures Settled(ts, rec, checked, checked - first - invalids)
  {
    hide Settled, Searched;
    var done := checked - first - {str} - invalids;
    SearchEnds(ts, rec, str, checked, done);
    assert checked - first - invalids == done + {str};
  }

  lemma StructInTable(ts: TypeTable, t: nat)
    ensures IsStruct(ts, t) <==> t < |ts| && ts[t].TypeStruct?
  {
  }

  /** The first struct of a report: its field holds rec itself. */
  lemma FirstListed(ts: TypeTable, rec: nat, str: nat, field: nat)
    requires WellFormed(ts) && Holds(ts, str, field, rec)
    ensures LeadsTo(ts, Report([str], [field]), rec) && Elements([str]) == {str}
  {
  }

  function Pushed(s: seq<nat>, x: nat): (r: seq<nat>) {
    s + [x]
  }

  /** One more struct around those listed so far. */
  lemma WrapIn(ts: TypeTable, r: Report, rec: nat, str: nat, field: nat, checked: set<nat>)
    requires WellFormed(ts) && LeadsTo(ts, r, rec)
    requires r.structs != [] && Holds(ts, str, field, r.structs[|r.structs| - 1])
    requires str in checked && Elements(r.structs) !! checked
    ensures LeadsTo(ts, Report(Pushed(r.structs, str), Pushed(r.fields, field)), rec)
    ensures Elements(Pushed(r.structs, str)) == Elements(r.structs) + {str}
    ensures Pushed(r.structs, str) != [] && Pushed(r.structs, str)[|Pushed(r.structs, str)| - 1] == str
  {
    assert forall x :: x in r.structs + [str] <==> x in r.structs || x == str;
  }

  /** None of them was marked or reported before. */
  lemma WrapsNew(listed: seq<nat>, str: nat, first: set<nat>, checked: set<nat>, invalids: set<nat>)
    requires Elements(listed) !! checked && Elements(listed) !! invalids && first <= checked
    requires str !in first && str !in invalids && Elements(Pushed(listed, str)) == Elements(listed) + {str}
    ensures Elements(Pushed(listed, str)) !! first && Elements(Pushed(listed, str)) !! invalids
    ensures invalids + Elements(listed) + {str} == invalids + Elements(Pushed(listed, str))
  {
    hide Elements;
  }

  /** The inner loop over field arrays and arrays of a fixed size. */
  method SkipArrays(ts: TypeTable, field: nat) returns (t: nat)
    requires WellFormed(ts) && field < |ts|
    ensures t == Strip(ts, field)
  {
    t := field;
    while Unbounded(ts[t])
      invariant t < |ts| && Strip(ts, t) == Strip(ts, field)
      decreases Depths(ts)[t]
    {
      ChildInTable(ts, t, ts[t].elem);
      t := ts[t].elem;
    }
  }

  /** All structs that some report lists. */
  function Reported(errors: seq<Report>): set<nat> {
    set k, x | 0 <= k < |errors| && x in errors[k].structs :: x
  }

  /** Every report is a cycle, and no struct is in two of them. */
  ghost predicate Sound(ts: TypeTable, errors: seq<Report>)
    requires WellFormed(ts)
  {
    && (forall k :: 0 <= k < |errors| ==> IsRealCycle(ts, errors[k]))
    && forall j, k :: 0 <= j < k < |errors| ==> Elements(errors[j].structs) !! Elements(errors[k].structs)
  }

  /** No cycle through s stays clear of the reported structs. */
  ghost predicate NoCycleThrough(ts: TypeTable, s: nat, reported: set<nat>)
    requires WellFormed(ts)
  {
    forall c: seq<nat> :: IsCycle(StructGraph(ts), c) && c[0] == s ==> Elements(c) * reported != {}
  }

  /** Sound, and every cycle of the containment graph has a reported struct. */
  ghost predicate Exact(ts: TypeTable, errors: seq<Report>)
    requires WellFormed(ts)
  {
    && Sound(ts, errors)
    && forall c: seq<nat> :: IsCycle(StructGraph(ts), c) ==> Elements(c) * Reported(errors) != {}
  }

  lemma OneMoreReport(ts: TypeTable, errors: seq<Report>, r: Report)
    requires WellFormed(ts) && Sound(ts, errors) && IsRealCycle(ts, r)
    requires Elements(r.structs) !! Reported(errors)
    ensures Sound(ts, errors + [r])
    ensures Reported(errors + [r]) == Reported(errors) + Elements(r.structs)
  {
    var more := errors + [r];
    forall x | x in Reported(more) ensures x in Reported(errors) + Elements(r.structs) {
      var k :| 0 <= k < |more| && x in more[k].structs;
      assert k < |errors| ==> more[k] == errors[k];
    }
    forall x | x in Reported(errors) + Elements(r.structs) ensures x in Reported(more) {
      if x in Reported(errors) {
        var k :| 0 <= k < |errors| && x in errors[k].structs;
        assert x in more[k].structs;
      } else {
        assert x in more[|errors|].structs;
      }
    }
    forall j, k | 0 <= j < k < |more| ensures Elements(more[j].structs) !! Elements(more[k].structs) {
      if k == |errors| {
        assert forall x :: x in errors[j].structs ==> x in Reported(errors);
      }
    }
  }

  /** A search from start that came back empty-handed settles every struct it could reach. */
  lemma SettledExcludes(ts: TypeTable, start: nat, checked: set<nat>, invalids: set<nat>)
    requires WellFormed(ts) && start in checked && Settled(ts, start, checked, checked - invalids)
    ensures NoCycleThrough(ts, start, invalids)
  {
    forall c: seq<nat> | IsCycle(StructGraph(ts), c) && c[0] == start ensures Elements(c) * invalids != {} {
      if Elements(c) * invalids == {} {
        StaysSettled(ts, start, checked, invalids, c, |c| - 1);
      }
    }
  }

  lemma {:induction false} StaysSettled(ts: TypeTable, start: nat, checked: set<nat>, invalids: set<nat>,
                                        c: seq<nat>, n: nat)
    requires WellFormed(ts) && Settled(ts, start, checked, checked - invalids)
    requires IsPath(StructGraph(ts), c) && c[0] == start && start in checked
    requires Elements(c) * invalids == {} && n < |c|
    ensures c[n] in checked - invalids && start !in Embedded(ts, c[n])
  {
    assert c[n] in Elements(c) && c[n] !in Elements(c) * invalids;
    if n > 0 {
      StaysSettled(ts, start, checked, invalids, c, n - 1);
      assert c[n] in Embedded(ts, c[n - 1]);
    }
  }

  lemma MoreReported(ts: TypeTable, s: nat, before: set<nat>, after: set<nat>)
    requires WellFormed(ts) && before <= after && NoCycleThrough(ts, s, before)
    ensures NoCycleThrough(ts, s, after)
  {
    forall c: seq<nat> | IsCycle(StructGraph(ts), c) && c[0] == s ensures Elements(c) * after != {} {
      var x :| x in Elements(c) * before;
      assert x in Elements(c) * after;
    }
  }

  lemma ReportedStart(ts: TypeTable, s: nat, reported: set<nat>)
    requires WellFormed(ts) && s in reported
    ensures NoCycleThrough(ts, s, reported)
  {
    forall c: seq<nat> | IsCycle(StructGraph(ts), c) && c[0] == s ensures Elements(c) * reported != {} {
      assert s in Elements(c) * reported;
    }
  }

  lemma SearchIsComplete(ts: TypeTable, items: seq<nat>, errors: seq<Report>)
    requires WellFormed(ts) && Sound(ts, errors)
    requires forall t :: t in items <==> IsStruct(ts, t)
    requires forall k :: 0 <= k < |items| ==> NoCycleThrough(ts, items[k], Reported(errors))
    ensures Exact(ts, errors)
  {
    forall c: seq<nat> | IsCycle(StructGraph(ts), c) ensures Elements(c) * Reported(errors) != {} {
      assert c[0] in items;
      var k :| 0 <= k < |items| && items[k] == c[0];
      assert NoCycleThrough(ts, items[k], Reported(errors));
    }
  }

  function Reversed(s: seq<nat>): (r: seq<nat>)
    ensures |r| == |s| && forall k :: 0 <= k < |s| ==> r[k] == s[|s| - 1 - k]
  {
    if s == [] then [] else Reversed(s[1..]) + [s[0]]
  }

  /** A report read from its last entry to its first is a cycle of the containment graph. */
  lemma ReportIsCycle(ts: TypeTable, r: Report)
    requires WellFormed(ts) && IsRealCycle(ts, r)
    ensures IsCycle(StructGraph(ts), Reversed(r.structs))
  {
    var g, n, c := StructGraph(ts), |r.structs|, Reversed(r.structs);
    forall k: nat | k < n
      ensures c[k] in g && (if k + 1 < n then c[k + 1] else c[0]) in g[c[k]]
    {
      var j := n - 1 - k;
      var next := if j == 0 then r.structs[n - 1] else r.structs[j - 1];
      assert Holds(ts, r.structs[j], r.fields[j], next);
      FieldIsEmbedded(ts, r.structs[j], r.fields[j]);
    }
    assert c[n - 1] in g;
  }

  /** The program is accepted exactly when no struct contains itself without a limit. */
  lemma NoReportIffAcyclic(ts: TypeTable, errors: seq<Report>)
    requires WellFormed(ts) && Exact(ts, errors)
    ensures errors == [] <==> Acyclic(StructGraph(ts))
  {
    if errors == [] {
      assert Reported(errors) == {};
    } else {
      ReportIsCycle(ts, errors[0]);
    }
  }

  class Checker {
    const ts: TypeTable
    var checked: set<nat>
    var invalids: set<nat>
    var structs: seq<nat>
    var fields: seq<nat>
    var errors: seq<Report>

    constructor (ts: TypeTable)
      ensures this.ts == ts && checked == {} && invalids == {} && errors == []
    {
      this.ts := ts;
      checked, invalids, structs, fields, errors := {}, {}, [], [], [];
    }

    method CheckForRecursion(rec: nat, str: nat) returns (found: bool)
      requires WellFormed(ts) && IsStruct(ts, rec) && IsStruct(ts, str)
      requires structs == [] && fields == []
      modifies this`checked, this`invalids, this`structs, this`fields
      ensures old(checked) <= checked && str in checked
      ensures !found ==> structs == [] && fields == [] && invalids == old(invalids)
      ensures !found ==> Settled(ts, rec, checked, checked - old(checked) - invalids)
      ensures found ==> LeadsTo(ts, Report(structs, fields), rec) && structs != [] && structs[|structs| - 1] == str
      ensures found ==> Elements(structs) !! old(invalids) && Elements(structs) !! old(checked)
      ensures found ==> invalids == old(invalids) + Elements(structs)
      decreases |StructGraph(ts).Keys - checked|
    {
      hide *;
      StructInTable(ts, str);
      if str in checked || str in invalids {
        checked := checked + {str};
        NothingNew(ts, rec, str, old(checked), invalids);
        return false;
      }
      checked := checked + {str};
      SearchStarts(ts, rec, str, old(checked), invalids);

      var i := 0;
      while i < |ts[str].fields|
        invariant i <= |ts[str].fields| && old(checked) <= checked && str in checked
        invariant structs == [] && fields == [] && invalids == old(invalids)
        invariant Searched(ts, rec, str, checked, checked - old(checked) - {str} - invalids, i)
      {
        FieldIsEmbedded(ts, str, i);
        var t := SkipArrays(ts, ts[str].fields[i]);
        ghost var before := checked;
        StructInTable(ts, t);
        if ts[t].TypeStruct? {
          if t == rec {
            FirstListed(ts, rec, str, i);
            structs, fields, invalids := [str], [i], invalids + {str};
            return true;
          }
          FewerLeft(StructGraph(ts).Keys, old(checked), checked, str);
          found := CheckForRecursion(rec, t);
          assert old(checked) <= checked && str in checked;
          if found {
            WrapIn(ts, Report(structs, fields), rec, str, i, before);
            WrapsNew(structs, str, old(checked), before, old(invalids));
            structs, fields, invalids := Pushed(structs, str), Pushed(fields, i), invalids + {str};
            return;
          }
          FieldSearched(ts, rec, str, old(checked), before, checked, invalids, i);
        } else {
          SearchSkips(ts, rec, str, checked, checked - old(checked) - {str} - invalids, i);
        }
        i := i + 1;
      }
      AllSearched(ts, rec, str, old(checked), checked, invalids);
      return false;
    }

    /** The loop over the items of the program: each struct is taken as a starting point once. */
    method CheckAll(items: seq<nat>)
      requires WellFormed(ts)
      requires forall t :: t in items <==> IsStruct(ts, t)
      requires checked == {} && invalids == {} && errors == []
      modifies this
      ensures Exact(ts, errors)
    {
      hide Settled, NoCycleThrough, IsRealCycle, Exact, LeadsTo, StructGraph, WellFormed;
      var i := 0;
      assert Reported([]) == {};
      while i < |items|
        invariant 0 <= i <= |items| && checked == {}
        invariant Sound(ts, errors) && invalids == Reported(errors)
        invariant forall k :: 0 <= k < i ==> NoCycleThrough(ts, items[k], invalids)
      {
        var start: nat := items[i];
        ghost var before := errors;
        structs, fields := [], [];
        var found := CheckForRecursion(start, start);
        if found {
          errors := errors + [Report(structs, fields)];
          OneMoreReport(ts, before, Report(structs, fields));
          ReportedStart(ts, start, invalids);
          forall k | 0 <= k < i ensures NoCycleThrough(ts, items[k], invalids) {
            MoreReported(ts, items[k], Reported(before), invalids);
          }
        } else {
          assert checked - {} - invalids == checked - invalids;
          SettledExcludes(ts, start, checked, invalids);
        }
        checked := {};
        i := i + 1;
      }
      SearchIsComplete(ts, items, errors);
    }
  }
}
