/** From the events of a physical device to those of a virtual one: the numbering of its axes and keys (hid.c),
    the report that events accumulate in (server.c), and what the client makes of it (client.c). */
module Forwarding {
  import opened Collections

  const EV_SYN: nat := 0
  const EV_KEY: nat := 1
  const EV_REL: nat := 2
  const EV_ABS: nat := 3
  const EV_MAX: nat := 31
  const KEY_MAX: nat := 767
  const ABS_CNT: nat := 64
  const REL_CNT: nat := 16
  const KEY_CNT: nat := 768

  /** -1 in 16 bits without a sign. */
  const NO_INDEX: nat := 0xFFFF

  // ----- numbering

  /** The numbers below n whose bits are set, in order. */
  function Codes(bits: seq<bool>, n: nat): (codes: seq<nat>)
    requires n <= |bits|
    ensures |codes| <= n
    ensures forall c: nat :: c in codes <==> c < n && bits[c]
  {
    if n == 0 then [] else Codes(bits, n - 1) + (if bits[n - 1] then [n - 1] else [])
  }

  /** ids and indices are inverse to each other, and all other codes have no index. */
  ghost predicate Inverse(codes: seq<nat>, indices: seq<nat>) {
    && |codes| <= |indices| < NO_INDEX
    && (forall k :: 0 <= k < |codes| ==> codes[k] < |indices| && indices[codes[k]] == k)
    && (forall c :: 0 <= c < |indices| && c !in codes ==> indices[c] == NO_INDEX)
  }

  /** An index read from the map has no sign; it is one of the report exactly if the code was declared, and
      otherwise what -1 is in 16 bits. */
  lemma InBoundsIffDeclared(codes: seq<nat>, indices: seq<nat>, c: nat)
    requires Inverse(codes, indices) && c < |indices|
    ensures indices[c] < |indices| <==> c in codes
    ensures c !in codes ==> indices[c] == (-1) % 0x1_0000
    ensures c in codes ==> indices[c] < |codes| && codes[indices[c]] == c
  {
    if c in codes {
      var k :| 0 <= k < |codes| && codes[k] == c;
    }
  }

  /** One kind of input of a device: its codes, and the map back from them. */
  class Feature {
    const ids: array<nat>
    const indices: array<nat>
    var len: nat

    ghost predicate Valid()
      reads this, ids, indices
    {
      && ids != indices && ids.Length == indices.Length && len <= ids.Length
      && Inverse(ids[..len], indices[..])
    }

    constructor (count: nat)
      requires count < NO_INDEX
      ensures Valid() && fresh(ids) && fresh(indices) && len == 0 && ids.Length == count
    {
      ids := new nat[count](_ => 0);
      indices := new nat[count](_ => NO_INDEX);
      len := 0;
    }

    /** The next index for a code that has none yet. */
    method Declare(code: nat)
      requires Valid() && code < ids.Length && code !in ids[..len] && len < ids.Length
      modifies this, ids, indices
      ensures Valid() && ids[..len] == old(ids[..len]) + [code]
    {
      ids[len] := code;
      indices[code] := len;
      len := len + 1;
      assert ids[..len] == old(ids[..len]) + [code];
    }
  }

  lemma {:induction false} FewCodes(bits: seq<bool>, n: nat, count: nat)
    requires n <= |bits| && forall c :: count <= c < n ==> !bits[c]
    ensures |Codes(bits, n)| <= count
    ensures n > 0 && bits[n - 1] ==> |Codes(bits, n - 1)| < count
  {
    if n > 0 {
      FewCodes(bits, n - 1, count);
      if bits[n - 1] {
        FewCodes(bits, n - 1, n - 1);
      }
    }
  }

  /** The loop over the codes of one kind; the one with the largest number is not looked at. */
  method SetupKind(f: Feature, bits: seq<bool>)
    requires f.Valid() && f.len == 0 && |bits| >= KEY_MAX
    requires forall c :: f.ids.Length <= c < KEY_MAX ==> !bits[c]
    modifies f, f.ids, f.indices
    ensures f.Valid() && f.ids[..f.len] == Codes(bits, KEY_MAX)
  {
    var i := 0;
    while i < KEY_MAX
      invariant i <= KEY_MAX && f.Valid() && f.ids[..f.len] == Codes(bits, i)
    {
      FewCodes(bits, i + 1, f.ids.Length);
      if bits[i] {
        f.Declare(i);
      }
      i := i + 1;
    }
  }

  /** What the device says of itself: the kinds of its events, and the codes of each. */
  datatype Capabilities = Capabilities(kinds: seq<bool>, codes: seq<seq<bool>>)

  /** Codes stay below the sizes of the tables. */
  predicate IsDevice(d: Capabilities) {
    && |d.kinds| == |d.codes| == EV_MAX
    && (forall k :: 0 <= k < EV_MAX ==> |d.codes[k]| >= KEY_MAX)
    && (forall c :: ABS_CNT <= c < KEY_MAX ==> !d.codes[EV_ABS][c])
    && (forall c :: REL_CNT <= c < KEY_MAX ==> !d.codes[EV_REL][c])
  }

  /** All devices with absolute axes below 64 and relative axes below 16. */
  lemma DevicesAre(d: Capabilities)
    ensures IsDevice(d) <==>
            && |d.kinds| == |d.codes| == 31 && (forall k :: 0 <= k < 31 ==> |d.codes[k]| >= 767)
            && (forall c :: 64 <= c < 767 ==> !d.codes[3][c]) && (forall c :: 16 <= c < 767 ==> !d.codes[2][c])
  {
  }

  function Declared(d: Capabilities, kind: nat): seq<nat>
    requires IsDevice(d) && kind < EV_MAX
  {
    if d.kinds[kind] then Codes(d.codes[kind], KEY_MAX) else []
  }

  class Device {
    const abs: Feature
    const rel: Feature
    const key: Feature

    ghost predicate Valid()
      reads this, abs, rel, key, abs.ids, abs.indices, rel.ids, rel.indices, key.ids, key.indices
    {
      && abs.Valid() && rel.Valid() && key.Valid() && abs != rel && abs != key && rel != key
      && {abs.ids, abs.indices} !! {rel.ids, rel.indices} !! {key.ids, key.indices}
      && abs.ids.Length == ABS_CNT && rel.ids.Length == REL_CNT && key.ids.Length == KEY_CNT
    }

    ghost predicate Numbers(d: Capabilities)
      requires IsDevice(d)
      reads this, abs, rel, key, abs.ids, abs.indices, rel.ids, rel.indices, key.ids, key.indices
    {
      && Valid()
      && abs.ids[..abs.len] == Declared(d, EV_ABS)
      && rel.ids[..rel.len] == Declared(d, EV_REL)
      && key.ids[..key.len] == Declared(d, EV_KEY)
    }

    /** setup_device */
    constructor (d: Capabilities)
      requires IsDevice(d)
      ensures Numbers(d)
    {
      hide Codes, Inverse;
      abs := new Feature(ABS_CNT);
      rel := new Feature(REL_CNT);
      key := new Feature(KEY_CNT);
      new;
      Setup(d);
    }

    /** The loop over the kinds of events. */
    method Setup(d: Capabilities)
      requires IsDevice(d) && Valid() && abs.len == rel.len == key.len == 0
      modifies abs, rel, key, abs.ids, abs.indices, rel.ids, rel.indices, key.ids, key.indices
      ensures Numbers(d)
    {
      hide Codes, Inverse;
      var kind := 0;
      while kind < EV_MAX
        invariant kind <= EV_MAX && Valid()
        invariant abs.ids[..abs.len] == if kind > EV_ABS then Declared(d, EV_ABS) else []
        invariant rel.ids[..rel.len] == if kind > EV_REL then Declared(d, EV_REL) else []
        invariant key.ids[..key.len] == if kind > EV_KEY then Declared(d, EV_KEY) else []
      {
        if d.kinds[kind] {
          if kind == EV_ABS {
            SetupKind(abs, d.codes[kind]);
          } else if kind == EV_REL {
            SetupKind(rel, d.codes[kind]);
          } else if kind == EV_KEY {
            SetupKind(key, d.codes[kind]);
          }
        }
        kind := kind + 1;
      }
    }
  }

  // ----- accumulating

  datatype Input = Input(kind: nat, code: nat, value: int)

  /** What a report keeps of a value: 32 bits of an axis, and of a key whether it is down. */
  function Kept(kind: nat, value: int): nat {
    if kind == EV_KEY then if value != 0 then 1 else 0 else value % 0x1_0000_0000
  }

  /** The last value read for a code, 0 if there was none. */
  function Last(events: seq<Input>, kind: nat, code: nat): nat
    decreases |events|
  {
    if events == [] then 0
    else
      var e := events[|events| - 1];
      if e.kind == kind && e.code == code then Kept(kind, e.value) else Last(events[..|events| - 1], kind, code)
  }

  function LastOfEach(events: seq<Input>, kind: nat, codes: seq<nat>): (vs: seq<nat>)
    ensures |vs| == |codes|
  {
    seq(|codes|, k requires 0 <= k < |codes| => Last(events, kind, codes[k]))
  }

  datatype Report = Report(abs: seq<nat>, rel: seq<nat>, key: seq<nat>)

  /** The report for a device after some events. */
  function ReportAfter(d: Capabilities, events: seq<Input>): Report
    requires IsDevice(d)
  {
    Report(LastOfEach(events, EV_ABS, Declared(d, EV_ABS)), LastOfEach(events, EV_REL, Declared(d, EV_REL)),
           LastOfEach(events, EV_KEY, Declared(d, EV_KEY)))
  }

  /** One report for every EV_SYN. */
  function Reports(d: Capabilities, events: seq<Input>): seq<Report>
    requires IsDevice(d)
    decreases |events|
  {
    if events == [] then []
    else
      var before := events[..|events| - 1];
      Reports(d, before) + (if events[|events| - 1].kind == EV_SYN then [ReportAfter(d, before)] else [])
  }

  /** A device sends only what it has declared. */
  predicate IsDeclared(d: Capabilities, e: Input)
    requires IsDevice(d)
  {
    e.kind in {EV_ABS, EV_REL, EV_KEY} ==> e.code in Declared(d, e.kind)
  }

  /** The values of one kind in a report, as far as they are in use. */
  ghost predicate Accumulates(data: seq<nat>, f: Feature, events: seq<Input>, kind: nat)
    reads f, f.ids, f.indices
  {
    f.Valid() && |data| == f.ids.Length && data[..f.len] == LastOfEach(events, kind, f.ids[..f.len])
  }

  lemma OtherEvent(events: seq<Input>, e: Input, kind: nat, codes: seq<nat>)
    requires e.kind != kind
    ensures LastOfEach(events + [e], kind, codes) == LastOfEach(events, kind, codes)
  {
    assert (events + [e])[..|events|] == events;
  }

  lemma ThisEvent(events: seq<Input>, e: Input, codes: seq<nat>, indices: seq<nat>)
    requires Inverse(codes, indices) && e.code in codes
    ensures e.code < |indices| && indices[e.code] < |codes|
    ensures LastOfEach(events + [e], e.kind, codes) ==
            LastOfEach(events, e.kind, codes)[indices[e.code] := Kept(e.kind, e.value)]
  {
    assert (events + [e])[..|events|] == events;
    var k :| 0 <= k < |codes| && codes[k] == e.code;
  }

  /** Puts the value of an event where its code belongs, if that is inside the report; the tables of indices are
      taken to have one for every code that a kernel sends. */
  method Enter(data: array<nat>, f: Feature, e: Input, ghost events: seq<Input>) returns (inside: bool)
    requires data != f.ids && data != f.indices && e.kind in {EV_ABS, EV_REL, EV_KEY}
    requires Accumulates(data[..], f, events, e.kind)
    modifies data
    ensures inside <==> e.code in f.ids[..f.len]
    ensures inside ==> Accumulates(data[..], f, events + [e], e.kind)
  {
    hide Last, Kept;
    if e.code >= f.indices.Length {
      return false;
    }
    InBoundsIffDeclared(f.ids[..f.len], f.indices[..], e.code);
    var index := f.indices[e.code];
    if index >= data.Length {
      return false;
    }
    ThisEvent(events, e, f.ids[..f.len], f.indices[..]);
    data[index] := Kept(e.kind, e.value);
    assert data[..f.len] == old(data[..f.len])[index := Kept(e.kind, e.value)];
    inside := true;
  }

  /** A run on these events goes as far as n: to the end, or to the first event whose value is stored outside
      the report. */
  ghost predicate GoesTo(d: Capabilities, events: seq<Input>, n: nat)
    requires IsDevice(d)
  {
    && n <= |events|
    && (forall i :: 0 <= i < n ==> IsDeclared(d, events[i]))
    && (n < |events| ==> !IsDeclared(d, events[n]))
  }

  /** The inner loop of device_thread, on the events a device sends until it is lost: the reports that are sent, and
      how many events are read before a value is stored outside the report. */
  method DeviceThread(dev: Device, d: Capabilities, events: seq<Input>) returns (sent: seq<Report>, n: nat)
    requires IsDevice(d) && dev.Numbers(d)
    ensures GoesTo(d, events, n) && sent == Reports(d, events[..n])
  {
    hide Codes, Inverse, Last, Kept, IsDevice, LastOfEach, Reports, Declared, IsDeclared, ReportAfter;
    NoReports(d);
    var abs, rel, key := new nat[ABS_CNT](_ => 0), new nat[REL_CNT](_ => 0), new nat[KEY_CNT](_ => 0);
    NothingYet(dev.abs.ids[..dev.abs.len], EV_ABS);
    NothingYet(dev.rel.ids[..dev.rel.len], EV_REL);
    NothingYet(dev.key.ids[..dev.key.len], EV_KEY);
    sent := [];
    assert events[..0] == [];
    n := 0;
    var inside := true;
    while n < |events|
      invariant n <= |events| && sent == Reports(d, events[..n])
      invariant forall i :: 0 <= i < n ==> IsDeclared(d, events[i])
      invariant Accumulates(abs[..], dev.abs, events[..n], EV_ABS)
      invariant Accumulates(rel[..], dev.rel, events[..n], EV_REL)
      invariant Accumulates(key[..], dev.key, events[..n], EV_KEY)
    {
      ghost var before := events[..n];
      var e := events[n];
      assert events[..n + 1] == before + [e];
      OneMoreReport(d, before, e);
      Others(before, e, dev);
      KnownIsDeclared(dev, d, e);
      if e.kind == EV_SYN {
        ReportHeld(dev, d, before);
        sent := sent + [Report(abs[..dev.abs.len], rel[..dev.rel.len], key[..dev.key.len])];
      } else if e.kind == EV_ABS {
        inside := Enter(abs, dev.abs, e, before);
      } else if e.kind == EV_REL {
        inside := Enter(rel, dev.rel, e, before);
      } else if e.kind == EV_KEY {
        inside := Enter(key, dev.key, e, before);
      }
      if !inside {
        return;
      }
      n := n + 1;
    }
  }

  lemma KnownIsDeclared(dev: Device, d: Capabilities, e: Input)
    requires IsDevice(d) && dev.Numbers(d)
    ensures e.kind == EV_ABS ==> (IsDeclared(d, e) <==> e.code in dev.abs.ids[..dev.abs.len])
    ensures e.kind == EV_REL ==> (IsDeclared(d, e) <==> e.code in dev.rel.ids[..dev.rel.len])
    ensures e.kind == EV_KEY ==> (IsDeclared(d, e) <==> e.code in dev.key.ids[..dev.key.len])
    ensures e.kind !in {EV_ABS, EV_REL, EV_KEY} ==> IsDeclared(d, e)
  {
    hide Codes, Inverse, IsDevice, Declared;
  }

  lemma ReportHeld(dev: Device, d: Capabilities, events: seq<Input>)
    requires IsDevice(d) && dev.Numbers(d)
    ensures ReportAfter(d, events) ==
      Report(LastOfEach(events, EV_ABS, dev.abs.ids[..dev.abs.len]), LastOfEach(events, EV_REL, dev.rel.ids[..dev.rel.len]),
             LastOfEach(events, EV_KEY, dev.key.ids[..dev.key.len]))
  {
    hide Codes, Inverse, IsDevice, Declared, LastOfEach;
  }

  lemma NoReports(d: Capabilities)
    requires IsDevice(d)
    ensures Reports(d, []) == []
  {
  }

  lemma NothingYet(codes: seq<nat>, kind: nat)
    ensures LastOfEach([], kind, codes) == seq(|codes|, _ => 0)
  {
  }

  lemma OneMoreReport(d: Capabilities, before: seq<Input>, e: Input)
    requires IsDevice(d)
    ensures Reports(d, before + [e]) == Reports(d, before) + (if e.kind == EV_SYN then [ReportAfter(d, before)] else [])
  {
    hide IsDevice, ReportAfter;
    assert (before + [e])[..|before|] == before;
  }

  lemma Others(before: seq<Input>, e: Input, dev: Device)
    requires dev.Valid()
    ensures e.kind != EV_ABS ==>
      LastOfEach(before + [e], EV_ABS, dev.abs.ids[..dev.abs.len]) == LastOfEach(before, EV_ABS, dev.abs.ids[..dev.abs.len])
    ensures e.kind != EV_REL ==>
      LastOfEach(before + [e], EV_REL, dev.rel.ids[..dev.rel.len]) == LastOfEach(before, EV_REL, dev.rel.ids[..dev.rel.len])
    ensures e.kind != EV_KEY ==>
      LastOfEach(before + [e], EV_KEY, dev.key.ids[..dev.key.len]) == LastOfEach(before, EV_KEY, dev.key.ids[..dev.key.len])
  {
    hide Inverse, LastOfEach;
    if e.kind != EV_ABS { OtherEvent(before, e, EV_ABS, dev.abs.ids[..dev.abs.len]); }
    if e.kind != EV_REL { OtherEvent(before, e, EV_REL, dev.rel.ids[..dev.rel.len]); }
    if e.kind != EV_KEY { OtherEvent(before, e, EV_KEY, dev.key.ids[..dev.key.len]); }
  }

  // ----- emitting

  datatype Output = Output(kind: nat, code: nat, value: nat)

  /** The codes of a device as the client has been told of them. */
  datatype Info = Info(abs: seq<nat>, rel: seq<nat>, key: seq<nat>)

  function InfoOf(d: Capabilities): Info
    requires IsDevice(d)
  {
    Info(Declared(d, EV_ABS), Declared(d, EV_REL), Declared(d, EV_KEY))
  }

  /** What the virtual device is to show of a value: all bits are set for a key that is down. */
  function Shown(kind: nat, kept: nat): nat {
    if kind == EV_KEY then if kept == 0 then 0 else 0xFFFF_FFFF else kept
  }

  function Emissions(kind: nat, codes: seq<nat>, data: seq<nat>): (out: seq<Output>)
    requires |codes| == |data|
    ensures |out| == |codes|
  {
    seq(|codes|, k requires 0 <= k < |codes| => Output(kind, codes[k], Shown(kind, data[k])))
  }

  predicate Matches(info: Info, r: Report) {
    |info.abs| == |r.abs| && |info.rel| == |r.rel| && |info.key| == |r.key|
  }

  /** device_handle_report; a report of another shape is dropped. */
  method HandleReport(info: Info, r: Report) returns (out: seq<Output>)
    ensures !Matches(info, r) ==> out == []
    ensures Matches(info, r) ==>
      out == Emissions(EV_ABS, info.abs, r.abs) + Emissions(EV_REL, info.rel, r.rel) + Emissions(EV_KEY, info.key, r.key)
             + [Output(EV_SYN, 0, 0)]
  {
    if |r.abs| != |info.abs| || |r.rel| != |info.rel| || |r.key| != |info.key| {
      return [];
    }
    var abs := EmitAll(EV_ABS, info.abs, r.abs);
    var rel := EmitAll(EV_REL, info.rel, r.rel);
    var key := EmitKeys(info.key, r.key);
    out := abs + rel + key + [Output(EV_SYN, 0, 0)];
  }

  method EmitAll(kind: nat, codes: seq<nat>, data: seq<nat>) returns (out: seq<Output>)
    requires |codes| == |data| && kind != EV_KEY
    ensures out == Emissions(kind, codes, data)
  {
    out := [];
    for i := 0 to |data|
      invariant out == Emissions(kind, codes[..i], data[..i])
    {
      out := out + [Output(kind, codes[i], data[i])];
    }
    assert codes[..|data|] == codes && data[..|data|] == data;
  }

  /** Keys: the negation of the value, less one, in 32 bits. */
  method EmitKeys(codes: seq<nat>, data: seq<nat>) returns (out: seq<Output>)
    requires |codes| == |data|
    ensures out == Emissions(EV_KEY, codes, data)
  {
    out := [];
    for i := 0 to |data|
      invariant out == Emissions(EV_KEY, codes[..i], data[..i])
    {
      var negated := if data[i] == 0 then 1 else 0;
      out := out + [Output(EV_KEY, codes[i], (negated - 1) % 0x1_0000_0000)];
    }
    assert codes[..|data|] == codes && data[..|data|] == data;
  }

  /** On every EV_SYN the virtual device gets one event for each declared code of the device, with the last
      value read for it, and nonzero for exactly the keys that are down. */
  method Forward(dev: Device, d: Capabilities, events: seq<Input>) returns (shown: seq<seq<Output>>, n: nat)
    requires IsDevice(d) && dev.Numbers(d)
    ensures GoesTo(d, events, n) && |shown| == Syns(events[..n])
    ensures forall j :: 0 <= j < n && events[j].kind == EV_SYN ==>
              Syns(events[..j]) < |shown| && IsShown(d, events[..j], shown[Syns(events[..j])])
  {
    hide IsShown, IsDevice, Reports, ReportAfter, Syns, Declared, GoesTo;
    var sent;
    sent, n := DeviceThread(dev, d, events);
    GoesInside(d, events, n);
    ghost var seen := events[..n];
    ReportCount(d, seen);
    shown := [];
    for i := 0 to |sent|
      invariant |shown| == i
      invariant forall j :: 0 <= j < n && seen[j].kind == EV_SYN && Syns(seen[..j]) < i ==>
                  IsShown(d, seen[..j], shown[Syns(seen[..j])])
    {
      var out := HandleReport(InfoOf(d), sent[i]);
      forall j | 0 <= j < n && seen[j].kind == EV_SYN && Syns(seen[..j]) == i ensures IsShown(d, seen[..j], out) {
        ReportOfSyn(d, seen, j);
        ShowsLast(d, seen[..j], sent[i], out);
      }
      shown := shown + [out];
    }
    forall j | 0 <= j < n && events[j].kind == EV_SYN
      ensures Syns(events[..j]) < |shown| && IsShown(d, events[..j], shown[Syns(events[..j])])
    {
      assert seen[..j] == events[..j];
      ReportOfSyn(d, seen, j);
    }
  }

  lemma GoesInside(d: Capabilities, events: seq<Input>, n: nat)
    requires IsDevice(d) && GoesTo(d, events, n)
    ensures n <= |events|
  {
  }

  function Syns(events: seq<Input>): nat
    decreases |events|
  {
    if events == [] then 0
    else Syns(events[..|events| - 1]) + (if events[|events| - 1].kind == EV_SYN then 1 else 0)
  }

  /** The report for an EV_SYN is of the events before it. */
  lemma {:induction false} ReportOfSyn(d: Capabilities, events: seq<Input>, j: nat)
    requires IsDevice(d) && j < |events| && events[j].kind == EV_SYN
    ensures Syns(events[..j]) < |Reports(d, events)| == Syns(events)
    ensures Reports(d, events)[Syns(events[..j])] == ReportAfter(d, events[..j])
    decreases |events|
  {
    hide IsDevice, ReportAfter;
    var before := events[..|events| - 1];
    ReportCount(d, before);
    if j < |before| {
      assert before[..j] == events[..j];
      ReportOfSyn(d, before, j);
    }
  }

  lemma {:induction false} ReportCount(d: Capabilities, events: seq<Input>)
    requires IsDevice(d)
    ensures |Reports(d, events)| == Syns(events)
    decreases |events|
  {
    hide IsDevice, ReportAfter;
    if events != [] {
      ReportCount(d, events[..|events| - 1]);
    }
  }

  /** Event i is the last one of a code. */
  ghost predicate IsLatest(events: seq<Input>, kind: nat, code: nat, i: nat) {
    && i < |events| && events[i].kind == kind && events[i].code == code
    && forall j :: i < j < |events| ==> !(events[j].kind == kind && events[j].code == code)
  }

  ghost predicate NeverRead(events: seq<Input>, kind: nat, code: nat) {
    forall j :: 0 <= j < |events| ==> !(events[j].kind == kind && events[j].code == code)
  }

  /** The value of an axis: 32 bits of the last one read, 0 if there was none. */
  ghost predicate ShowsAxis(events: seq<Input>, kind: nat, code: nat, o: Output) {
    && o.kind == kind && o.code == code && (NeverRead(events, kind, code) ==> o.value == 0)
    && forall i: nat :: IsLatest(events, kind, code, i) ==> o.value == events[i].value % 0x1_0000_0000
  }

  /** The value of a key: not 0 exactly if the last one read was not, 0 if there was none. */
  ghost predicate ShowsKey(events: seq<Input>, code: nat, o: Output) {
    && o.kind == EV_KEY && o.code == code && (NeverRead(events, EV_KEY, code) ==> o.value == 0)
    && forall i: nat :: IsLatest(events, EV_KEY, code, i) ==> o.value == if events[i].value != 0 then 0xFFFF_FFFF else 0
  }

  /** The events for one EV_SYN: one for each declared code and in order, and an EV_SYN at the end. */
  ghost predicate IsShown(d: Capabilities, events: seq<Input>, out: seq<Output>)
    requires IsDevice(d)
  {
    var abs, rel, key := Declared(d, EV_ABS), Declared(d, EV_REL), Declared(d, EV_KEY);
    && |out| == |abs| + |rel| + |key| + 1 && out[|out| - 1] == Output(EV_SYN, 0, 0)
    && (forall k :: 0 <= k < |abs| ==> ShowsAxis(events, EV_ABS, abs[k], out[k]))
    && (forall k :: 0 <= k < |rel| ==> ShowsAxis(events, EV_REL, rel[k], out[|abs| + k]))
    && (forall k :: 0 <= k < |key| ==> ShowsKey(events, key[k], out[|abs| + |rel| + k]))
  }

  /** The codes declared are those of a kind the device has, in order; the largest is left out. */
  lemma DeclaredAre(d: Capabilities, kind: nat)
    requires IsDevice(d) && kind < EV_MAX
    ensures forall c: nat :: c in Declared(d, kind) <==> d.kinds[kind] && c < 767 && d.codes[kind][c]
    ensures forall i, j :: 0 <= i < j < |Declared(d, kind)| ==> Declared(d, kind)[i] < Declared(d, kind)[j]
  {
    hide Codes;
    CodesAscend(d.codes[kind], KEY_MAX);
  }

  lemma {:induction false} CodesAscend(bits: seq<bool>, n: nat)
    requires n <= |bits|
    ensures forall i, j :: 0 <= i < j < |Codes(bits, n)| ==> Codes(bits, n)[i] < Codes(bits, n)[j]
  {
    if n > 0 {
      CodesAscend(bits, n - 1);
      var codes := Codes(bits, n - 1);
      assert forall i :: 0 <= i < |codes| ==> codes[i] in codes;
    }
  }

  /** What a report keeps for a code: of an axis 32 bits of the last value read, of a key whether that was not 0. */
  lemma {:induction false} LastIs(events: seq<Input>, kind: nat, code: nat)
    ensures NeverRead(events, kind, code) ==> Last(events, kind, code) == 0
    ensures forall i: nat :: IsLatest(events, kind, code, i) ==>
              Last(events, kind, code) ==
              if kind == EV_KEY then if events[i].value != 0 then 1 else 0 else events[i].value % 0x1_0000_0000
    decreases |events|
  {
    if events != [] {
      var before, last := events[..|events| - 1], |events| - 1;
      LastIs(before, kind, code);
      if !(events[last].kind == kind && events[last].code == code) {
        forall i: nat | IsLatest(events, kind, code, i) ensures IsLatest(before, kind, code, i) && i < last {
        }
      }
    }
  }

  lemma AxisShown(events: seq<Input>, kind: nat, codes: seq<nat>, k: nat)
    requires kind != EV_KEY && k < |codes|
    ensures ShowsAxis(events, kind, codes[k], Emissions(kind, codes, LastOfEach(events, kind, codes))[k])
  {
    LastIs(events, kind, codes[k]);
  }

  lemma KeyShown(events: seq<Input>, codes: seq<nat>, k: nat)
    requires k < |codes|
    ensures ShowsKey(events, codes[k], Emissions(EV_KEY, codes, LastOfEach(events, EV_KEY, codes))[k])
  {
    LastIs(events, EV_KEY, codes[k]);
  }

  lemma ShowsLast(d: Capabilities, events: seq<Input>, r: Report, out: seq<Output>)
    requires IsDevice(d) && r == ReportAfter(d, events)
    requires var info := InfoOf(d);
      Matches(info, r) ==>
        out == Emissions(EV_ABS, info.abs, r.abs) + Emissions(EV_REL, info.rel, r.rel) + Emissions(EV_KEY, info.key, r.key)
               + [Output(EV_SYN, 0, 0)]
    ensures IsShown(d, events, out)
  {
    hide IsDevice, Declared, LastOfEach, ShowsAxis, ShowsKey, Emissions;
    var abs, rel, key := Declared(d, EV_ABS), Declared(d, EV_REL), Declared(d, EV_KEY);
    var xs, ys, zs := Emissions(EV_ABS, abs, r.abs), Emissions(EV_REL, rel, r.rel), Emissions(EV_KEY, key, r.key);
    forall k | 0 <= k < |abs| ensures ShowsAxis(events, EV_ABS, abs[k], xs[k]) {
      AxisShown(events, EV_ABS, abs, k);
    }
    forall k | 0 <= k < |rel| ensures ShowsAxis(events, EV_REL, rel[k], ys[k]) {
      AxisShown(events, EV_REL, rel, k);
    }
    forall k | 0 <= k < |key| ensures ShowsKey(events, key[k], zs[k]) {
      KeyShown(events, key, k);
    }
  }
}
