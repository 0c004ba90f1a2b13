/** The declarators the C backend prints for fields (ser/codegen_c.c), and how C reads them. */
module Declarators {
  import opened Collections
  import opened Schema

  datatype Modifier = Pointer | ArrayOf(size: nat)

  /** "*", "(", ")", the name of the field, and "[size]". */
  datatype Token = Star | Open | Close | Name | Brackets(size: nat)

  // ----- modifiers of a field

  predicate IsFixedArray(o: TypeObject) {
    o.TypeArray? && o.sizing.SizingFixed?
  }

  function ModifierOf(o: TypeObject): Modifier
    requires IsFixedArray(o)
  {
    if o.heap then Pointer else ArrayOf(o.size)
  }

  lemma ElementIsLess(ts: TypeTable, t: nat)
    requires WellFormed(ts) && t < |ts| && IsFixedArray(ts[t])
    ensures ts[t].elem < |ts| && Depths(ts)[ts[t].elem] < Depths(ts)[t]
  {
    assert ts[t].elem in Children(ts[t]);
    ChildInTable(ts, t, ts[t].elem);
  }

  function ModifiersOf(ts: TypeTable, t: nat): seq<Modifier>
    requires WellFormed(ts) && t < |ts|
    decreases Depths(ts)[t]
  {
    if IsFixedArray(ts[t]) then
      ElementIsLess(ts, t);
      [ModifierOf(ts[t])] + ModifiersOf(ts, ts[t].elem)
    else []
  }

  function BaseOf(ts: TypeTable, t: nat): (b: nat)
    requires WellFormed(ts) && t < |ts|
    ensures b < |ts| && !IsFixedArray(ts[b])
    decreases Depths(ts)[t]
  {
    if IsFixedArray(ts[t]) then
      ElementIsLess(ts, t);
      BaseOf(ts, ts[t].elem)
    else t
  }

  /** c lists the types from t on, each the element of the array of a fixed size before it; the last is no such array. */
  ghost predicate IsFixedChain(ts: TypeTable, c: seq<nat>, t: nat)
    decreases |c|
  {
    && c != [] && c[0] == t < |ts|
    && if |c| == 1 then !(ts[t].TypeArray? && ts[t].sizing == SizingFixed)
       else ts[t].TypeArray? && ts[t].sizing == SizingFixed && IsFixedChain(ts, c[1..], ts[t].elem)
  }

  /** A field of such a type is a pointer for each array on the heap and an array of its size for every other, from the
      outermost type on, and in the end of the last type. */
  lemma {:induction false} ModifiersByChain(ts: TypeTable, c: seq<nat>, t: nat)
    requires WellFormed(ts) && t < |ts| && IsFixedChain(ts, c, t)
    ensures |ModifiersOf(ts, t)| == |c| - 1 && BaseOf(ts, t) == c[|c| - 1]
    ensures forall k :: 0 <= k < |c| - 1 ==>
              && c[k] < |ts| && ts[c[k]].TypeArray?
              && ModifiersOf(ts, t)[k] == if ts[c[k]].heap then Pointer else ArrayOf(ts[c[k]].size)
    decreases |c|
  {
    if |c| > 1 {
      ElementIsLess(ts, t);
      var rest := c[1..];
      ModifiersByChain(ts, rest, ts[t].elem);
      forall k | 0 <= k < |c| - 1
        ensures c[k] < |ts| && ts[c[k]].TypeArray?
        ensures ModifiersOf(ts, t)[k] == if ts[c[k]].heap then Pointer else ArrayOf(ts[c[k]].size)
      {
        if k > 0 {
          assert c[k] == rest[k - 1];
        }
      }
    }
  }

  // ----- printing

  /** What stands before the name for modifier i. */
  function Before(ms: seq<Modifier>, i: nat): seq<Token>
    requires i < |ms|
  {
    if ms[i] != Pointer then [] else if i == |ms| - 1 || ms[i + 1] == Pointer then [Star] else [Open, Star]
  }

  /** What stands after the name for modifier i. */
  function Behind(ms: seq<Modifier>, i: nat): seq<Token>
    requires i < |ms|
  {
    match ms[i]
    case Pointer => []
    case ArrayOf(n) => if i == 0 || ms[i - 1].ArrayOf? then [Brackets(n)] else [Close, Brackets(n)]
  }

  /** The modifiers from i on, in reverse. */
  function AllBefore(ms: seq<Modifier>, i: nat): seq<Token>
    requires i <= |ms|
    decreases |ms| - i
  {
    if i == |ms| then [] else AllBefore(ms, i + 1) + Before(ms, i)
  }

  /** The modifiers before i. */
  function AllBehind(ms: seq<Modifier>, i: nat): seq<Token>
    requires i <= |ms|
  {
    if i == 0 then [] else AllBehind(ms, i - 1) + Behind(ms, i - 1)
  }

  function Printed(ms: seq<Modifier>): seq<Token> {
    AllBefore(ms, 0) + [Name] + AllBehind(ms, |ms|)
  }

  /** The modifiers given and those of the type, from the outside in. */
  method CollectModifiers(ts: TypeTable, t: nat, mods: seq<Modifier>) returns (base: nat, modifiers: seq<Modifier>)
    requires WellFormed(ts) && t < |ts|
    ensures base == BaseOf(ts, t) && modifiers == mods + ModifiersOf(ts, t)
  {
    hide WellFormed;
    modifiers := mods;
    var current: nat := t;
    while IsFixedArray(ts[current])
      invariant current < |ts| && BaseOf(ts, current) == BaseOf(ts, t)
      invariant modifiers + ModifiersOf(ts, current) == mods + ModifiersOf(ts, t)
      decreases Depths(ts)[current]
    {
      ElementIsLess(ts, current);
      ghost var rest := ModifiersOf(ts, ts[current].elem);
      assert modifiers + ([ModifierOf(ts[current])] + rest) == modifiers + [ModifierOf(ts[current])] + rest;
      modifiers := modifiers + [ModifierOf(ts[current])];
      current := ts[current].elem;
    }
    base := current;
    assert modifiers + [] == modifiers;
  }

  /** The loop that goes back over the modifiers. */
  method WriteBefore(modifiers: seq<Modifier>) returns (out: seq<Token>)
    ensures out == AllBefore(modifiers, 0)
  {
    out := [];
    var i: nat := |modifiers|;
    while i > 0
      invariant i <= |modifiers| && out == AllBefore(modifiers, i)
    {
      i := i - 1;
      var m := modifiers[i];
      if m == Pointer {
        if i == |modifiers| - 1 || modifiers[i + 1] == m {
          out := out + [Star];
        } else {
          out := out + [Open, Star];
        }
      }
    }
  }

  /** The loop that goes forward over them. */
  method WriteBehind(modifiers: seq<Modifier>) returns (out: seq<Token>)
    ensures out == AllBehind(modifiers, |modifiers|)
  {
    out := [];
    var i: nat := 0;
    while i < |modifiers|
      invariant i <= |modifiers| && out == AllBehind(modifiers, i)
    {
      var m := modifiers[i];
      if m.ArrayOf? {
        if i == 0 || modifiers[i - 1].ArrayOf? {
          out := out + [Brackets(m.size)];
        } else {
          out := out + [Close, Brackets(m.size)];
        }
      }
      i := i + 1;
    }
  }

  /** write_field: the type before the declarator, and the tokens of it. */
  method WriteField(ts: TypeTable, t: nat, mods: seq<Modifier>) returns (base: nat, out: seq<Token>)
    requires WellFormed(ts) && t < |ts|
    ensures base == BaseOf(ts, t) && out == Printed(mods + ModifiersOf(ts, t))
  {
    hide WellFormed, ModifiersOf, BaseOf, AllBefore, AllBehind;
    var modifiers: seq<Modifier>;
    base, modifiers := CollectModifiers(ts, t, mods);
    var front := WriteBefore(modifiers);
    var back := WriteBehind(modifiers);
    out := front + [Name] + back;
  }

  // ----- reading, by the grammar of section 6.7.6 of ISO/IEC 9899:2011

  /** The modifiers from the name outwards, and what is left of the text. */
  type Reading = Option<(seq<Modifier>, seq<Token>)>

  /** declarator: "*" declarator | direct-declarator */
  function ReadDeclarator(s: seq<Token>): (r: Reading)
    ensures r.Some? ==> |r.value.1| < |s|
    decreases |s|, 1
  {
    if s != [] && s[0] == Star then
      match ReadDeclarator(s[1..])
      case None => None
      case Some((ms, rest)) => Some((ms + [Pointer], rest))
    else ReadDirect(s)
  }

  /** direct-declarator: identifier | "(" declarator ")" | direct-declarator "[" size "]" */
  function ReadDirect(s: seq<Token>): (r: Reading)
    ensures r.Some? ==> |r.value.1| < |s|
    decreases |s|, 0
  {
    if s != [] && s[0] == Name then ReadArrays([], s[1..])
    else if s != [] && s[0] == Open then
      match ReadDeclarator(s[1..])
      case None => None
      case Some((ms, rest)) => if rest != [] && rest[0] == Close then ReadArrays(ms, rest[1..]) else None
    else None
  }

  function ReadArrays(ms: seq<Modifier>, s: seq<Token>): (r: Reading)
    ensures r.Some? && |r.value.1| <= |s|
    decreases |s|
  {
    if s != [] && s[0].Brackets? then ReadArrays(ms + [ArrayOf(s[0].size)], s[1..]) else Some((ms, s))
  }

  // ----- printing from the inside out

  predicate EndsInPointer(ms: seq<Modifier>) {
    ms != [] && ms[|ms| - 1] == Pointer
  }

  lemma BeforeIs(ms: seq<Modifier>, m: Modifier, i: nat)
    requires i <= |ms|
    ensures Before(ms + [m], |ms|) == if m == Pointer then [Star] else []
    ensures i < |ms| ==>
      Before(ms + [m], i) == if i == |ms| - 1 && ms[i] == Pointer && m != Pointer then [Open, Star] else Before(ms, i)
    ensures ms != [] ==> Before(ms, |ms| - 1) == if EndsInPointer(ms) then [Star] else []
  {
  }

  lemma AllBeforeIs(ms: seq<Modifier>, i: nat)
    requires i <= |ms|
    ensures i == |ms| ==> AllBefore(ms, i) == []
    ensures i == |ms| - 1 ==> AllBefore(ms, i) == Before(ms, i)
    ensures i < |ms| ==> AllBefore(ms, i) == AllBefore(ms, i + 1) + Before(ms, i)
  {
    hide Before;
  }

  /** One more modifier changes a declarator only at its ends. */
  lemma {:induction false} BeforeGrows(ms: seq<Modifier>, m: Modifier, i: nat)
    requires i <= |ms| && (i == |ms| ==> ms == [])
    ensures AllBefore(ms + [m], i) ==
            (if m == Pointer then [Star] else if EndsInPointer(ms) then [Open] else []) + AllBefore(ms, i)
    decreases |ms| - i
  {
    hide AllBefore, Before;
    var all := ms + [m];
    AllBeforeIs(all, i);
    AllBeforeIs(all, |ms|);
    AllBeforeIs(ms, i);
    BeforeIs(ms, m, i);
    if i < |ms| - 1 {
      BeforeGrows(ms, m, i + 1);
    } else if i == |ms| - 1 {
      assert [Open, Star] == [Open] + [Star];
    }
  }

  lemma {:induction false} BehindGrows(ms: seq<Modifier>, m: Modifier, i: nat)
    requires i <= |ms|
    ensures AllBehind(ms + [m], i) == AllBehind(ms, i)
  {
    hide Behind;
    if i > 0 {
      BehindGrows(ms, m, i - 1);
      BehindStays(ms, m, i - 1);
    }
  }

  lemma BehindStays(ms: seq<Modifier>, m: Modifier, i: nat)
    requires i < |ms|
    ensures Behind(ms + [m], i) == Behind(ms, i)
  {
  }

  lemma BehindIs(ms: seq<Modifier>, m: Modifier)
    ensures AllBehind(ms + [m], |ms| + 1) == AllBehind(ms + [m], |ms|) + Behind(ms + [m], |ms|)
    ensures Behind(ms + [m], |ms|) ==
            match m
            case Pointer => []
            case ArrayOf(n) => if EndsInPointer(ms) then [Close, Brackets(n)] else [Brackets(n)]
  {
  }

  lemma PrintedGrows(ms: seq<Modifier>, m: Modifier)
    ensures Printed(ms + [m]) ==
            match m
            case Pointer => [Star] + Printed(ms)
            case ArrayOf(n) =>
              if EndsInPointer(ms) then [Open] + Printed(ms) + [Close, Brackets(n)] else Printed(ms) + [Brackets(n)]
  {
    hide AllBefore, AllBehind, Behind;
    BeforeGrows(ms, m, 0);
    BehindGrows(ms, m, |ms|);
    BehindIs(ms, m);
    Regroup(AllBefore(ms, 0), AllBehind(ms, |ms|), if m == Pointer then 0 else m.size);
  }

  lemma Regroup(x: seq<Token>, y: seq<Token>, n: nat)
    ensures [Star] + x + [Name] + (y + []) == [Star] + (x + [Name] + y)
    ensures [Open] + x + [Name] + (y + [Close, Brackets(n)]) == [Open] + (x + [Name] + y) + [Close, Brackets(n)]
    ensures [] + x + [Name] + (y + [Brackets(n)]) == x + [Name] + y + [Brackets(n)]
  {
  }

  // ----- reading undoes printing

  lemma ReadsStar(s: seq<Token>)
    ensures ReadDeclarator([Star] + s) ==
            match ReadDeclarator(s) { case None => None case Some((ms, rest)) => Some((ms + [Pointer], rest)) }
  {
    assert ([Star] + s)[1..] == s;
  }

  lemma ReadsParentheses(s: seq<Token>)
    ensures ReadDeclarator([Open] + s) ==
            match ReadDeclarator(s)
            case None => None
            case Some((ms, rest)) => if rest != [] && rest[0] == Close then ReadArrays(ms, rest[1..]) else None
  {
    assert ([Open] + s)[1..] == s;
  }

  lemma ReadsName(rest: seq<Token>)
    ensures Printed([]) == [Name] && ReadDeclarator([Name] + rest) == ReadArrays([], rest)
  {
    assert ([Name] + rest)[1..] == rest;
  }

  lemma ReadsArray(ms: seq<Modifier>, n: nat, rest: seq<Token>)
    ensures ReadArrays(ms, [Brackets(n)] + rest) == ReadArrays(ms + [ArrayOf(n)], rest)
  {
    assert ([Brackets(n)] + rest)[1..] == rest;
  }

  /** A declarator is read from the start of any text that does not go on with another array. */
  lemma {:induction false} ReadsPrinted(ms: seq<Modifier>, rest: seq<Token>)
    ensures !EndsInPointer(ms) ==> ReadDeclarator(Printed(ms) + rest) == ReadArrays(ms, rest)
    ensures EndsInPointer(ms) && (rest == [] || !rest[0].Brackets?) ==>
              ReadDeclarator(Printed(ms) + rest) == Some((ms, rest))
    decreases |ms|
  {
    hide Printed, ReadDeclarator, ReadArrays;
    if ms == [] {
      ReadsName(rest);
    } else {
      var inner, m := ms[..|ms| - 1], ms[|ms| - 1];
      assert inner + [m] == ms;
      PrintedGrows(inner, m);
      match m {
        case Pointer =>
          assert [Star] + Printed(inner) + rest == [Star] + (Printed(inner) + rest);
          ReadsStar(Printed(inner) + rest);
          ReadsPrinted(inner, rest);
          NoArrays(inner, rest);
        case ArrayOf(n) =>
          ReadsArray(inner, n, rest);
          if EndsInPointer(inner) {
            var after := [Close] + ([Brackets(n)] + rest);
            ReadsPrinted(inner, after);
            assert [Open] + Printed(inner) + [Close, Brackets(n)] + rest == [Open] + (Printed(inner) + after);
            ReadsParentheses(Printed(inner) + after);
            assert after[1..] == [Brackets(n)] + rest;
          } else {
            ReadsPrinted(inner, [Brackets(n)] + rest);
            assert Printed(inner) + [Brackets(n)] + rest == Printed(inner) + ([Brackets(n)] + rest);
          }
      }
    }
  }

  lemma NoArrays(ms: seq<Modifier>, rest: seq<Token>)
    ensures rest == [] || !rest[0].Brackets? ==> ReadArrays(ms, rest) == Some((ms, rest))
  {
  }

  /** Parsing the declarator printed for a field gives back its modifiers, and uses up the text. */
  lemma DeclaratorRoundTrip(ms: seq<Modifier>)
    ensures ReadDeclarator(Printed(ms)) == Some((ms, []))
  {
    hide Printed;
    assert Printed(ms) + [] == Printed(ms);
    ReadsPrinted(ms, []);
    NoArrays(ms, []);
  }

  // ----- parentheses

  /** Parentheses match when depth of them are open before and none in the end. */
  predicate Balanced(s: seq<Token>, depth: nat) {
    if s == [] then depth == 0
    else match s[0]
      case Open => Balanced(s[1..], depth + 1)
      case Close => depth > 0 && Balanced(s[1..], depth - 1)
      case _ => Balanced(s[1..], depth)
  }

  lemma {:induction false} BalancedInside(s: seq<Token>, depth: nat, rest: seq<Token>, more: nat)
    requires Balanced(s, depth)
    ensures Balanced(s + rest, depth + more) <==> Balanced(rest, more)
    decreases |s|
  {
    if s == [] {
      assert s + rest == rest;
    } else {
      assert (s + rest)[1..] == s[1..] + rest;
      match s[0] {
        case Open => BalancedInside(s[1..], depth + 1, rest, more);
        case Close => BalancedInside(s[1..], depth - 1, rest, more);
        case _ => BalancedInside(s[1..], depth, rest, more);
      }
    }
  }

  lemma {:induction false} PrintedIsBalanced(ms: seq<Modifier>)
    ensures Balanced(Printed(ms), 0)
    decreases |ms|
  {
    if ms == [] {
      assert Printed(ms) == [Name] && [Name][1..] == [];
    } else {
      var inner, m := ms[..|ms| - 1], ms[|ms| - 1];
      assert inner + [m] == ms;
      hide Printed;
      PrintedGrows(inner, m);
      PrintedIsBalanced(inner);
      match m {
        case Pointer => assert ([Star] + Printed(inner))[1..] == Printed(inner);
        case ArrayOf(n) =>
          hide Balanced;
          BracketsBehind(Printed(inner), n);
      }
    }
  }

  lemma BracketsBehind(inner: seq<Token>, n: nat)
    requires Balanced(inner, 0)
    ensures Balanced(inner + [Brackets(n)], 0) && Balanced([Open] + inner + [Close, Brackets(n)], 0)
  {
    assert [Close, Brackets(n)][1..] == [Brackets(n)] && [Brackets(n)][1..] == [];
    BalancedInside(inner, 0, [Brackets(n)], 0);
    BalancedInside(inner, 0, [Close, Brackets(n)], 1);
    assert ([Open] + inner + [Close, Brackets(n)])[1..] == inner + [Close, Brackets(n)];
  }
}
