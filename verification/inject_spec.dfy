/**
 * The meaning of inject_textures as functions, and what it guarantees.
 *
 * Each slot is first READ: looked up in the directory (several units) or
 * taken to be the input path (one unit), loaded as a DDS image and
 * converted back into a G1T texture. A read depends only on the slot's
 * original texture, so the reads of all slots can be computed up front.
 * The loop then walks the reads in index order, keeping the count of
 * replaced slots and, for an array texture, the baseline format and size
 * set by the first replaced slice. Afterwards an array's slices are brought
 * to the smallest mip count among them.
 */
module InjectSpec {
  import opened Wrappers
  import opened Paths
  import opened Formats
  import opened Textures
  import opened Naming

  /** What one slot yields: no file (skipped), a failure that aborts, or the converted texture. */
  datatype Read = Skip | Fail | Got(tex: Texture)

  /** The baseline of an array texture: array_format, array_width, array_height. */
  datatype Baseline = Baseline(format: nat, width: nat, height: nat)

  /** A return code of inject_textures and the texture vector as it then stands. */
  datatype Outcome = Outcome(code: int, textures: seq<Texture>)

  function ShapeOf(t: Texture): Baseline {
    Baseline(t.format, t.width, t.height)
  }

  /** Load the DDS file and convert it into the slot's texture (DdsFile::LoadFromFile, G1tFile::FromDDS). */
  function LoadSlot(tex: Texture, file: string, disk: Disk, lib: Library): Read {
    match disk.loadDds(file)
    case None => Fail
    case Some(img) =>
      match lib.fromDds(tex, img)
      case None => Fail
      case Some(t) => Got(t)
  }

  /**
   * Slot i of `units`: with several units the directory `path` is searched
   * for prefix + i + "*.dds" (no match skips the slot, two or more are an
   * error); with one unit `path` itself is the file.
   */
  function ReadSlot(tex: Texture, i: nat, units: nat, path: string, isArray: bool, disk: Disk, lib: Library): Read {
    if units > 1 then
      match Resolve(disk.entries(path), Stem(SlotPrefix(isArray), i))
      case Absent => Skip
      case Ambiguous => Fail
      case Unique(name) => LoadSlot(tex, Join(path, name), disk, lib)
    else
      LoadSlot(tex, path, disk, lib)
  }

  /** What each slot yields, in slot order. */
  function Reads(ts: seq<Texture>, path: string, isArray: bool, disk: Disk, lib: Library): (rs: seq<Read>)
    ensures |rs| == |ts|
  {
    seq(|ts|, i requires 0 <= i < |ts| => ReadSlot(ts[i], i, |ts|, path, isArray, disk, lib))
  }

  /**
   * How slot i is read. With one unit the input path itself is loaded. With
   * several, the directory's entries are matched against prefix + i +
   * "*.dds": no match skips the slot, two matches fail it, and a single
   * matching entry is loaded from the directory.
   */
  lemma ReadSlotLookup(tex: Texture, i: nat, units: nat, path: string, isArray: bool, disk: Disk, lib: Library)
    ensures units <= 1 ==> ReadSlot(tex, i, units, path, isArray, disk, lib) == LoadSlot(tex, path, disk, lib)
    ensures var es, stem := disk.entries(path), Stem(SlotPrefix(isArray), i);
      units > 1 && (forall j :: 0 <= j < |es| ==> !GlobMatch(es[j], stem)) ==>
        ReadSlot(tex, i, units, path, isArray, disk, lib) == Skip
    ensures var es, stem := disk.entries(path), Stem(SlotPrefix(isArray), i);
      forall j, k :: units > 1 && 0 <= j < k < |es| && GlobMatch(es[j], stem) && GlobMatch(es[k], stem) ==>
        ReadSlot(tex, i, units, path, isArray, disk, lib) == Fail
    ensures var es, stem := disk.entries(path), Stem(SlotPrefix(isArray), i);
      forall k :: units > 1 && 0 <= k < |es| && GlobMatch(es[k], stem) &&
                  (forall j :: 0 <= j < |es| && j != k ==> !GlobMatch(es[j], stem)) ==>
        ReadSlot(tex, i, units, path, isArray, disk, lib) == LoadSlot(tex, Join(path, es[k]), disk, lib)
  {
    var es, stem := disk.entries(path), Stem(SlotPrefix(isArray), i);
    ResolveAbsent(es, stem);
    forall j, k | 0 <= j < k < |es| && GlobMatch(es[j], stem) && GlobMatch(es[k], stem)
      ensures Resolve(es, stem) == Ambiguous
    {
      ResolveAmbiguous(es, stem, j, k);
    }
    forall k | 0 <= k < |es| && GlobMatch(es[k], stem) && (forall j :: 0 <= j < |es| && j != k ==> !GlobMatch(es[j], stem))
      ensures Resolve(es, stem) == Unique(es[k])
    {
      ResolveUnique(es, stem, k);
    }
  }

  /*
   * Mip reconciliation of an array's slices.
   */

  /** The smallest mip count among the slices (lower_mips after its scan). */
  function MinMips(ts: seq<Texture>): (m: nat)
    requires |ts| > 0
    ensures exists k :: 0 <= k < |ts| && ts[k].mips == m
    ensures forall k :: 0 <= k < |ts| ==> m <= ts[k].mips
  {
    if |ts| == 1 then ts[0].mips
    else
      var m := MinMips(ts[..|ts| - 1]);
      assert forall k :: 0 <= k < |ts| - 1 ==> ts[..|ts| - 1][k] == ts[k];
      if ts[|ts| - 1].mips < m then ts[|ts| - 1].mips else m
  }

  /** From slice i on, reduce every slice whose mip count is not m; a failed reduction gives -1. */
  function ReconcileFrom(ts: seq<Texture>, m: nat, reduceFails: (Texture, nat) -> bool, i: nat): (r: Outcome)
    requires i <= |ts|
    ensures (r.code == 0 || r.code == -1) && |r.textures| == |ts|
    decreases |ts| - i
  {
    if i == |ts| then Outcome(0, ts)
    else if ts[i].mips != m then
      if reduceFails(ts[i], m) then Outcome(-1, ts)
      else ReconcileFrom(ts[i := ts[i].(mips := m)], m, reduceFails, i + 1)
    else ReconcileFrom(ts, m, reduceFails, i + 1)
  }

  function Reconcile(ts: seq<Texture>, reduceFails: (Texture, nat) -> bool): Outcome
    requires |ts| > 0
  {
    ReconcileFrom(ts, MinMips(ts), reduceFails, 0)
  }

  /*
   * The injection loop.
   */

  /** After the loop: "nothing replaced" is an error with several units; an array is then reconciled. */
  function Finish(ts: seq<Texture>, num: nat, isArray: bool, reduceFails: (Texture, nat) -> bool): Outcome
    requires isArray ==> |ts| > 0
  {
    if |ts| > 1 && num == 0 then Outcome(-1, ts)
    else if isArray then Reconcile(ts, reduceFails)
    else Outcome(0, ts)
  }

  /** The loop's state after one slot: stopped with an outcome, or going on to the next slot. */
  datatype Step = Stop(outcome: Outcome) | Next(ts: seq<Texture>, num: nat, base: Baseline)

  /**
   * One pass of the loop body for slot i, given what reading the slot
   * yielded, with `num` slots replaced so far and `base` the array
   * baseline. A non-array texture that came back with more mips than it
   * had is reduced to its previous count; when that reduction fails the
   * source executes `return false`, which is the code 0.
   */
  function SlotStep(read: Read, isArray: bool, reduceFails: (Texture, nat) -> bool,
                    i: nat, ts: seq<Texture>, num: nat, base: Baseline): (s: Step)
    requires i < |ts|
    ensures s.Next? ==> |s.ts| == |ts|
    ensures s.Stop? ==> (s.outcome.code == 0 || s.outcome.code == -1) && |s.outcome.textures| == |ts|
  {
    match read
    case Skip => Next(ts, num, base)
    case Fail => Stop(Outcome(-1, ts))
    case Got(t) =>
      if isArray then
        if num == 0 then Next(ts[i := t], num + 1, ShapeOf(t))
        else if ShapeOf(t) != base then Stop(Outcome(-1, ts[i := t]))
        else Next(ts[i := t], num + 1, base)
      else if t.mips > ts[i].mips then
        if reduceFails(t, ts[i].mips) then Stop(Outcome(0, ts[i := t]))
        else Next(ts[i := t.(mips := ts[i].mips)], num + 1, base)
      else Next(ts[i := t], num + 1, base)
  }

  /** The loop from slot i on: where it stops early, or the state it ends in. */
  function Loop(rs: seq<Read>, isArray: bool, reduceFails: (Texture, nat) -> bool,
                i: nat, ts: seq<Texture>, num: nat, base: Baseline): (s: Step)
    requires |rs| == |ts| && i <= |ts|
    ensures s.Next? ==> |s.ts| == |ts|
    ensures s.Stop? ==> (s.outcome.code == 0 || s.outcome.code == -1) && |s.outcome.textures| == |ts|
    decreases |ts| - i
  {
    if i == |ts| then Next(ts, num, base)
    else
      match SlotStep(rs[i], isArray, reduceFails, i, ts, num, base)
      case Stop(o) => Stop(o)
      case Next(ts', num', base') => Loop(rs, isArray, reduceFails, i + 1, ts', num', base')
  }

  /** The loop from slot i on, then Finish. */
  function Run(rs: seq<Read>, isArray: bool, reduceFails: (Texture, nat) -> bool,
               i: nat, ts: seq<Texture>, num: nat, base: Baseline): (r: Outcome)
    requires |rs| == |ts| && i <= |ts| && (isArray ==> |ts| > 0)
    ensures r.code == 0 || r.code == -1
    ensures |r.textures| == |ts|
  {
    match Loop(rs, isArray, reduceFails, i, ts, num, base)
    case Stop(o) => o
    case Next(ts', num', _) => Finish(ts', num', isArray, reduceFails)
  }

  /** The injection loop over given reads, from its initial state. */
  function InjectReads(ts: seq<Texture>, rs: seq<Read>, isArray: bool, reduceFails: (Texture, nat) -> bool): (r: Outcome)
    requires |rs| == |ts| && (isArray ==> |ts| > 0)
    ensures r.code == 0 || r.code == -1
    ensures |r.textures| == |ts|
  {
    Run(rs, isArray, reduceFails, 0, ts, 0, Baseline(0, 0, 0))
  }

  /** inject_textures: the code it returns and the texture vector it leaves. */
  function Inject(ts: seq<Texture>, path: string, isArray: bool, disk: Disk, lib: Library): (r: Outcome)
    requires isArray ==> |ts| > 0
    ensures r.code == 0 || r.code == -1
    ensures |r.textures| == |ts|
  {
    InjectReads(ts, Reads(ts, path, isArray, disk, lib), isArray, lib.reduceFails)
  }

  /*
   * Vocabulary for the properties.
   */

  predicate NoFailFrom(rs: seq<Read>, i: nat) {
    forall k :: i <= k < |rs| ==> rs[k] != Fail
  }

  predicate SomeGotFrom(rs: seq<Read>, i: nat) {
    exists k :: i <= k < |rs| && rs[k].Got?
  }

  /** Every replaced slot from i on has the same format and size. */
  predicate ConsistentFrom(rs: seq<Read>, i: nat) {
    forall j, k :: i <= j < |rs| && i <= k < |rs| && rs[j].Got? && rs[k].Got? ==>
      ShapeOf(rs[j].tex) == ShapeOf(rs[k].tex)
  }

  /** Every replaced slot from i on has the given format and size. */
  predicate FitsFrom(rs: seq<Read>, i: nat, base: Baseline) {
    forall k :: i <= k < |rs| && rs[k].Got? ==> ShapeOf(rs[k].tex) == base
  }

  /** The vector with the converted textures of slots i onwards written in. */
  function PlacedFrom(ts: seq<Texture>, rs: seq<Read>, i: nat): (p: seq<Texture>)
    requires |rs| == |ts|
    ensures |p| == |ts|
  {
    seq(|ts|, k requires 0 <= k < |ts| => if k >= i && rs[k].Got? then rs[k].tex else ts[k])
  }

  /** A converted texture capped at the slot's previous mip count. */
  function Cap(t: Texture, previous: nat): Texture {
    if t.mips > previous then t.(mips := previous) else t
  }

  /** The vector with the capped converted textures of slots i onwards written in. */
  function CappedFrom(ts: seq<Texture>, rs: seq<Read>, i: nat): (p: seq<Texture>)
    requires |rs| == |ts|
    ensures |p| == |ts|
  {
    seq(|ts|, k requires 0 <= k < |ts| => if k >= i && rs[k].Got? then Cap(rs[k].tex, ts[k].mips) else ts[k])
  }

  /**
   * Every mip reduction the non-array loop performs from slot i on
   * succeeds: a converted texture with more mips than the slot had can be
   * reduced to the slot's count.
   */
  predicate ReductionsSucceed(ts: seq<Texture>, rs: seq<Read>, reduceFails: (Texture, nat) -> bool, i: nat)
    requires |rs| == |ts|
  {
    forall k :: i <= k < |ts| && rs[k].Got? && rs[k].tex.mips > ts[k].mips ==> !reduceFails(rs[k].tex, ts[k].mips)
  }

  /*
   * Mip reconciliation.
   */

  lemma {:induction false} ReconcileFromResult(ts: seq<Texture>, m: nat, reduceFails: (Texture, nat) -> bool, i: nat)
    requires i <= |ts|
    ensures var r := ReconcileFrom(ts, m, reduceFails, i);
      && (r.code == 0 <==> forall k :: i <= k < |ts| && ts[k].mips != m ==> !reduceFails(ts[k], m))
      && (r.code == 0 ==> forall k :: 0 <= k < |ts| ==> r.textures[k] == if k < i then ts[k] else ts[k].(mips := m))
    decreases |ts| - i
  {
    if i < |ts| {
      if ts[i].mips != m {
        if !reduceFails(ts[i], m) {
          var ts' := ts[i := ts[i].(mips := m)];
          assert forall k :: i < k < |ts| ==> ts'[k] == ts[k];
          ReconcileFromResult(ts', m, reduceFails, i + 1);
        }
      } else {
        ReconcileFromResult(ts, m, reduceFails, i + 1);
      }
    }
  }

  /** Nothing to reduce: every slice from i on already has the target mip count. */
  lemma {:induction false} ReconcileUnneeded(ts: seq<Texture>, m: nat, reduceFails: (Texture, nat) -> bool, i: nat)
    requires i <= |ts|
    requires forall k :: i <= k < |ts| ==> ts[k].mips == m
    ensures ReconcileFrom(ts, m, reduceFails, i) == Outcome(0, ts)
    decreases |ts| - i
  {
    if i < |ts| {
      ReconcileUnneeded(ts, m, reduceFails, i + 1);
    }
  }

  /**
   * Reconciliation succeeds exactly when every slice above the minimum can
   * be reduced; then every slice has the minimum mip count, nothing else
   * about a slice changes, and a slice already at the minimum is untouched.
   */
  lemma ReconcileResult(ts: seq<Texture>, reduceFails: (Texture, nat) -> bool)
    requires |ts| > 0
    ensures var r := Reconcile(ts, reduceFails); var m := MinMips(ts);
      && (r.code == 0 <==> forall k :: 0 <= k < |ts| && ts[k].mips != m ==> !reduceFails(ts[k], m))
      && (r.code == 0 ==> forall k :: 0 <= k < |ts| ==> r.textures[k] == ts[k].(mips := m))
      && (r.code == 0 ==> forall k :: 0 <= k < |ts| ==> r.textures[k].mips == m)
      && (r.code == 0 ==> forall k :: 0 <= k < |ts| && ts[k].mips == m ==> r.textures[k] == ts[k])
  {
    ReconcileFromResult(ts, MinMips(ts), reduceFails, 0);
  }

  /*
   * The loop, array textures.
   */

  lemma PlacedDone(ts: seq<Texture>, rs: seq<Read>, i: nat)
    requires |rs| == |ts| == i
    ensures PlacedFrom(ts, rs, i) == ts
  {
  }

  lemma PlacedPastSkip(ts: seq<Texture>, rs: seq<Read>, i: nat)
    requires |rs| == |ts| && i < |ts| && rs[i].Skip?
    ensures PlacedFrom(ts, rs, i + 1) == PlacedFrom(ts, rs, i)
  {
  }

  lemma PlacedPastGot(ts: seq<Texture>, rs: seq<Read>, i: nat)
    requires |rs| == |ts| && i < |ts| && rs[i].Got?
    ensures PlacedFrom(ts[i := rs[i].tex], rs, i + 1) == PlacedFrom(ts, rs, i)
  {
  }

  /** A skipped slot i adds no replaced slot. */
  lemma SomeGotPastSkip(rs: seq<Read>, i: nat)
    requires i < |rs| && rs[i].Skip?
    ensures SomeGotFrom(rs, i) <==> SomeGotFrom(rs, i + 1)
  {
    if SomeGotFrom(rs, i) {
      var k :| i <= k < |rs| && rs[k].Got?;
      assert k != i;
    }
  }

  /** A replaced slot i is consistent with the rest exactly when the rest all share its shape. */
  lemma ConsistentPastGot(rs: seq<Read>, i: nat)
    requires i < |rs| && rs[i].Got?
    ensures ConsistentFrom(rs, i) <==> ConsistentFrom(rs, i + 1) && FitsFrom(rs, i + 1, ShapeOf(rs[i].tex))
  {
  }

  /** Slots that all have one shape are consistent. */
  lemma FitsConsistent(rs: seq<Read>, i: nat, base: Baseline)
    ensures FitsFrom(rs, i, base) ==> ConsistentFrom(rs, i)
  {
  }

  /**
   * What the array loop needs from slot i on, having replaced `num` slots
   * with the baseline `base`, to succeed.
   */
  predicate ArrayAcceptsFrom(rs: seq<Read>, reduceFails: (Texture, nat) -> bool,
                             i: nat, ts: seq<Texture>, num: nat, base: Baseline)
    requires |rs| == |ts| > 0
  {
    && NoFailFrom(rs, i)
    && ConsistentFrom(rs, i)
    && (num > 0 ==> FitsFrom(rs, i, base))
    && (|ts| > 1 ==> num > 0 || SomeGotFrom(rs, i))
    && Reconcile(PlacedFrom(ts, rs, i), reduceFails).code == 0
  }

  /**
   * The array loop from slot i on succeeds exactly when ArrayAcceptsFrom
   * holds, and then leaves the reconciled vector with the converted
   * textures of those slots written in.
   */
  lemma {:induction false} RunArray(rs: seq<Read>, reduceFails: (Texture, nat) -> bool,
                                    i: nat, ts: seq<Texture>, num: nat, base: Baseline)
    requires |rs| == |ts| > 0 && i <= |ts|
    ensures Run(rs, true, reduceFails, i, ts, num, base).code == 0 <==> ArrayAcceptsFrom(rs, reduceFails, i, ts, num, base)
    ensures Run(rs, true, reduceFails, i, ts, num, base).code == 0 ==>
      Run(rs, true, reduceFails, i, ts, num, base).textures == Reconcile(PlacedFrom(ts, rs, i), reduceFails).textures
    decreases |ts| - i, 1
  {
    if i == |ts| {
      PlacedDone(ts, rs, i);
    } else if rs[i].Skip? {
      RunArraySkip(rs, reduceFails, i, ts, num, base);
    } else if rs[i].Fail? {
      assert !NoFailFrom(rs, i);
    } else if num == 0 {
      RunArrayFirst(rs, reduceFails, i, ts, num, base);
    } else if ShapeOf(rs[i].tex) != base {
      RunArrayMismatch(rs, reduceFails, i, ts, num, base);
    } else {
      RunArrayFits(rs, reduceFails, i, ts, num, base);
    }
  }

  /** RunArray when slot i is skipped. */
  lemma {:induction false} RunArraySkip(rs: seq<Read>, reduceFails: (Texture, nat) -> bool,
                                        i: nat, ts: seq<Texture>, num: nat, base: Baseline)
    requires |rs| == |ts| > 0 && i < |ts| && rs[i].Skip?
    ensures Run(rs, true, reduceFails, i, ts, num, base).code == 0 <==> ArrayAcceptsFrom(rs, reduceFails, i, ts, num, base)
    ensures Run(rs, true, reduceFails, i, ts, num, base).code == 0 ==>
      Run(rs, true, reduceFails, i, ts, num, base).textures == Reconcile(PlacedFrom(ts, rs, i), reduceFails).textures
    decreases |ts| - i, 0
  {
    RunArray(rs, reduceFails, i + 1, ts, num, base);
    PlacedPastSkip(ts, rs, i);
    SomeGotPastSkip(rs, i);
  }

  /** RunArray when slot i yields the first replaced slice, which sets the baseline. */
  lemma {:induction false} RunArrayFirst(rs: seq<Read>, reduceFails: (Texture, nat) -> bool,
                                  i: nat, ts: seq<Texture>, num: nat, base: Baseline)
    requires |rs| == |ts| > 0 && i < |ts| && rs[i].Got? && num == 0
    ensures Run(rs, true, reduceFails, i, ts, num, base).code == 0 <==> ArrayAcceptsFrom(rs, reduceFails, i, ts, num, base)
    ensures Run(rs, true, reduceFails, i, ts, num, base).code == 0 ==>
      Run(rs, true, reduceFails, i, ts, num, base).textures == Reconcile(PlacedFrom(ts, rs, i), reduceFails).textures
    decreases |ts| - i, 0
  {
    var t := rs[i].tex;
    assert Run(rs, true, reduceFails, i, ts, num, base) == Run(rs, true, reduceFails, i + 1, ts[i := t], 1, ShapeOf(t));
    PlacedPastGot(ts, rs, i);
    RunArray(rs, reduceFails, i + 1, ts[i := t], 1, ShapeOf(t));
    ConsistentPastGot(rs, i);
  }

  /** RunArray when slot i yields a slice whose shape differs from the baseline. */
  lemma {:induction false} RunArrayMismatch(rs: seq<Read>, reduceFails: (Texture, nat) -> bool,
                                  i: nat, ts: seq<Texture>, num: nat, base: Baseline)
    requires |rs| == |ts| > 0 && i < |ts| && rs[i].Got? && num > 0 && ShapeOf(rs[i].tex) != base
    ensures Run(rs, true, reduceFails, i, ts, num, base).code == 0 <==> ArrayAcceptsFrom(rs, reduceFails, i, ts, num, base)
    ensures Run(rs, true, reduceFails, i, ts, num, base).code == 0 ==>
      Run(rs, true, reduceFails, i, ts, num, base).textures == Reconcile(PlacedFrom(ts, rs, i), reduceFails).textures
    decreases |ts| - i, 0
  {
    assert Run(rs, true, reduceFails, i, ts, num, base).code == -1;
    assert !FitsFrom(rs, i, base);
  }

  /** RunArray when slot i yields a slice that matches the baseline. */
  lemma {:induction false} RunArrayFits(rs: seq<Read>, reduceFails: (Texture, nat) -> bool,
                                  i: nat, ts: seq<Texture>, num: nat, base: Baseline)
    requires |rs| == |ts| > 0 && i < |ts| && rs[i].Got? && num > 0 && ShapeOf(rs[i].tex) == base
    ensures Run(rs, true, reduceFails, i, ts, num, base).code == 0 <==> ArrayAcceptsFrom(rs, reduceFails, i, ts, num, base)
    ensures Run(rs, true, reduceFails, i, ts, num, base).code == 0 ==>
      Run(rs, true, reduceFails, i, ts, num, base).textures == Reconcile(PlacedFrom(ts, rs, i), reduceFails).textures
    decreases |ts| - i, 0
  {
    var t := rs[i].tex;
    assert Run(rs, true, reduceFails, i, ts, num, base) == Run(rs, true, reduceFails, i + 1, ts[i := t], num + 1, base);
    PlacedPastGot(ts, rs, i);
    RunArray(rs, reduceFails, i + 1, ts[i := t], num + 1, base);
    FitsConsistent(rs, i, base);
    FitsConsistent(rs, i + 1, base);
  }

  /**
   * Array injection succeeds exactly when no slot fails (no ambiguous
   * lookup, no failed load or conversion), all replaced slices agree in
   * format and size, at least one slice was replaced when there are several,
   * and the mip reconciliation of the resulting slices succeeds; the result
   * is that reconciliation.
   */
  lemma ArrayInjection(ts: seq<Texture>, rs: seq<Read>, reduceFails: (Texture, nat) -> bool)
    requires |rs| == |ts| > 0
    ensures var r := InjectReads(ts, rs, true, reduceFails); var placed := PlacedFrom(ts, rs, 0);
      && (r.code == 0 <==>
            && NoFailFrom(rs, 0)
            && ConsistentFrom(rs, 0)
            && (|ts| > 1 ==> SomeGotFrom(rs, 0))
            && Reconcile(placed, reduceFails).code == 0)
      && (r.code == 0 ==> r.textures == Reconcile(placed, reduceFails).textures)
  {
    RunArray(rs, reduceFails, 0, ts, 0, Baseline(0, 0, 0));
  }

  /**
   * After a successful array injection: every slice carries the smallest
   * mip count over all slices, skipped ones included; a replaced slice is
   * its converted texture with that mip count; a skipped slice keeps its
   * format and size; and all replaced slices share one format and size.
   */
  lemma ArrayInjectionResult(ts: seq<Texture>, rs: seq<Read>, reduceFails: (Texture, nat) -> bool)
    requires |rs| == |ts| > 0 && InjectReads(ts, rs, true, reduceFails).code == 0
    ensures var out := InjectReads(ts, rs, true, reduceFails).textures;
      var m := MinMips(PlacedFrom(ts, rs, 0));
      && NoFailFrom(rs, 0)
      && (|ts| > 1 ==> SomeGotFrom(rs, 0))
      && (forall k :: 0 <= k < |ts| ==> out[k].mips == m)
      && (forall k :: 0 <= k < |ts| && rs[k].Got? ==> out[k] == rs[k].tex.(mips := m))
      && (forall k :: 0 <= k < |ts| && rs[k].Skip? ==> out[k] == ts[k].(mips := m))
      && (forall j, k :: 0 <= j < |ts| && 0 <= k < |ts| && rs[j].Got? && rs[k].Got? ==>
            ShapeOf(out[j]) == ShapeOf(out[k]))
  {
    ArrayInjection(ts, rs, reduceFails);
    ReconcileResult(PlacedFrom(ts, rs, 0), reduceFails);
  }

  /*
   * The loop, non-array textures.
   */

  lemma {:induction false} RunPlain(rs: seq<Read>, reduceFails: (Texture, nat) -> bool,
                                    i: nat, ts: seq<Texture>, num: nat, base: Baseline)
    requires |rs| == |ts| && i <= |ts| && ReductionsSucceed(ts, rs, reduceFails, i)
    ensures var r := Run(rs, false, reduceFails, i, ts, num, base);
      && (r.code == 0 <==> NoFailFrom(rs, i) && (|ts| > 1 ==> num > 0 || SomeGotFrom(rs, i)))
      && (r.code == 0 ==> r.textures == CappedFrom(ts, rs, i))
    decreases |ts| - i
  {
    if i == |ts| {
      assert CappedFrom(ts, rs, i) == ts;
    } else {
      match rs[i]
      case Skip =>
        RunPlain(rs, reduceFails, i + 1, ts, num, base);
        assert CappedFrom(ts, rs, i + 1) == CappedFrom(ts, rs, i);
        SomeGotPastSkip(rs, i);
      case Fail =>
        assert !NoFailFrom(rs, i);
      case Got(t) =>
        var ts' := ts[i := Cap(t, ts[i].mips)];
        assert ReductionsSucceed(ts', rs, reduceFails, i + 1);
        assert CappedFrom(ts', rs, i + 1) == CappedFrom(ts, rs, i);
        RunPlain(rs, reduceFails, i + 1, ts', num + 1, base);
    }
  }

  /**
   * Non-array injection, when no mip reduction it performs fails: it succeeds
   * exactly when no slot fails and, with several textures, at least one was
   * replaced. Then a skipped slot keeps its texture, a replaced slot holds
   * its converted texture, reduced to the previous mip count only when it
   * had more, so no texture ends up with more mips than before.
   */
  lemma PlainInjection(ts: seq<Texture>, rs: seq<Read>, reduceFails: (Texture, nat) -> bool)
    requires |rs| == |ts| && ReductionsSucceed(ts, rs, reduceFails, 0)
    ensures var r := InjectReads(ts, rs, false, reduceFails);
      && (r.code == 0 <==> NoFailFrom(rs, 0) && (|ts| > 1 ==> SomeGotFrom(rs, 0)))
      && (r.code == 0 ==> forall k :: 0 <= k < |ts| ==> r.textures[k].mips <= ts[k].mips)
      && (r.code == 0 ==> forall k :: 0 <= k < |ts| && rs[k].Skip? ==> r.textures[k] == ts[k])
      && (r.code == 0 ==> forall k :: 0 <= k < |ts| && rs[k].Got? && rs[k].tex.mips <= ts[k].mips ==>
            r.textures[k] == rs[k].tex)
      && (r.code == 0 ==> forall k :: 0 <= k < |ts| && rs[k].Got? && rs[k].tex.mips > ts[k].mips ==>
            r.textures[k] == rs[k].tex.(mips := ts[k].mips))
  {
    RunPlain(rs, reduceFails, 0, ts, 0, Baseline(0, 0, 0));
  }

  /*
   * Skipped slots.
   */

  lemma {:induction false} SkipsAhead(rs: seq<Read>, isArray: bool, reduceFails: (Texture, nat) -> bool,
                                      j: nat, i: nat, ts: seq<Texture>, num: nat, base: Baseline)
    requires |rs| == |ts| && j <= i <= |ts| && (isArray ==> |ts| > 0)
    requires forall k :: j <= k < i ==> rs[k].Skip?
    ensures Run(rs, isArray, reduceFails, j, ts, num, base) == Run(rs, isArray, reduceFails, i, ts, num, base)
    decreases i - j
  {
    if j < i {
      SkipsAhead(rs, isArray, reduceFails, j + 1, i, ts, num, base);
    }
  }

  /** With several units, finding no file for any slot is an error and changes nothing. */
  lemma NothingToInject(ts: seq<Texture>, rs: seq<Read>, isArray: bool, reduceFails: (Texture, nat) -> bool)
    requires |rs| == |ts| > 1
    requires forall k :: 0 <= k < |ts| ==> rs[k].Skip?
    ensures InjectReads(ts, rs, isArray, reduceFails) == Outcome(-1, ts)
  {
    SkipsAhead(rs, isArray, reduceFails, 0, |ts|, ts, 0, Baseline(0, 0, 0));
  }

  /** The vector with the capped converted textures of slots lo up to hi written in. */
  function CappedRange(ts: seq<Texture>, rs: seq<Read>, lo: nat, hi: nat): (p: seq<Texture>)
    requires |rs| == |ts|
    ensures |p| == |ts|
  {
    seq(|ts|, k requires 0 <= k < |ts| => if lo <= k < hi && rs[k].Got? then Cap(rs[k].tex, ts[k].mips) else ts[k])
  }

  /** Slots lo up to hi of a non-array container neither fail nor meet a failing mip reduction. */
  predicate ReachesSlot(ts: seq<Texture>, rs: seq<Read>, reduceFails: (Texture, nat) -> bool, lo: nat, hi: nat)
    requires |rs| == |ts| && hi <= |ts|
  {
    forall k :: lo <= k < hi ==>
      && rs[k] != Fail
      && (rs[k].Got? && rs[k].tex.mips > ts[k].mips ==> !reduceFails(rs[k].tex, ts[k].mips))
  }

  lemma {:induction false} RunToReductionFailure(rs: seq<Read>, reduceFails: (Texture, nat) -> bool,
                                                 j: nat, ts: seq<Texture>, num: nat, base: Baseline, i: nat)
    requires |rs| == |ts| && j <= i < |ts|
    requires ReachesSlot(ts, rs, reduceFails, j, i)
    requires rs[i].Got? && rs[i].tex.mips > ts[i].mips && reduceFails(rs[i].tex, ts[i].mips)
    ensures Run(rs, false, reduceFails, j, ts, num, base) == Outcome(0, CappedRange(ts, rs, j, i)[i := rs[i].tex])
    decreases i - j
  {
    if j == i {
      assert CappedRange(ts, rs, j, i) == ts;
    } else if rs[j].Skip? {
      RunToReductionFailure(rs, reduceFails, j + 1, ts, num, base, i);
      assert CappedRange(ts, rs, j + 1, i) == CappedRange(ts, rs, j, i);
    } else {
      var t := rs[j].tex;
      var ts' := ts[j := Cap(t, ts[j].mips)];
      assert Run(rs, false, reduceFails, j, ts, num, base) == Run(rs, false, reduceFails, j + 1, ts', num + 1, base);
      assert ReachesSlot(ts', rs, reduceFails, j + 1, i);
      RunToReductionFailure(rs, reduceFails, j + 1, ts', num + 1, base, i);
      assert CappedRange(ts', rs, j + 1, i) == CappedRange(ts, rs, j, i);
    }
  }

  /** A non-array loop that reaches a failing slot stops there with -1. */
  lemma {:induction false} RunToFailedSlot(rs: seq<Read>, reduceFails: (Texture, nat) -> bool,
                                           j: nat, ts: seq<Texture>, num: nat, base: Baseline, i: nat)
    requires |rs| == |ts| && j <= i < |ts|
    requires ReachesSlot(ts, rs, reduceFails, j, i)
    requires rs[i] == Fail
    ensures Run(rs, false, reduceFails, j, ts, num, base) == Outcome(-1, CappedRange(ts, rs, j, i))
    decreases i - j
  {
    if j == i {
      assert CappedRange(ts, rs, j, i) == ts;
    } else if rs[j].Skip? {
      RunToFailedSlot(rs, reduceFails, j + 1, ts, num, base, i);
      assert CappedRange(ts, rs, j + 1, i) == CappedRange(ts, rs, j, i);
    } else {
      var t := rs[j].tex;
      var ts' := ts[j := Cap(t, ts[j].mips)];
      assert Run(rs, false, reduceFails, j, ts, num, base) == Run(rs, false, reduceFails, j + 1, ts', num + 1, base);
      assert ReachesSlot(ts', rs, reduceFails, j + 1, i);
      RunToFailedSlot(rs, reduceFails, j + 1, ts', num + 1, base, i);
      assert CappedRange(ts', rs, j + 1, i) == CappedRange(ts, rs, j, i);
    }
  }

  /**
   * The non-array loop never writes a skipped slot, whatever the mip
   * reductions do: every way out of it (an early -1, the early 0 of a
   * failed reduction, the end of the loop) leaves that slot as it was.
   */
  lemma {:induction false} RunKeepsSkipped(rs: seq<Read>, reduceFails: (Texture, nat) -> bool,
                                           j: nat, ts: seq<Texture>, num: nat, base: Baseline, k: nat)
    requires |rs| == |ts| && j <= |ts| && k < |ts| && rs[k].Skip?
    ensures Run(rs, false, reduceFails, j, ts, num, base).textures[k] == ts[k]
    decreases |ts| - j
  {
    if j < |ts| {
      var step := SlotStep(rs[j], false, reduceFails, j, ts, num, base);
      if step.Stop? {
        assert Run(rs, false, reduceFails, j, ts, num, base) == step.outcome;
      } else {
        assert Run(rs, false, reduceFails, j, ts, num, base) == Run(rs, false, reduceFails, j + 1, step.ts, step.num, step.base);
        assert step.ts[k] == ts[k];
        RunKeepsSkipped(rs, reduceFails, j + 1, step.ts, step.num, step.base, k);
      }
    }
  }

  /**
   * A failed mip reduction is reported as success: when injection into a
   * non-array container reaches slot i (no earlier slot failed, and every
   * earlier reduction succeeded) and slot i's texture has more mips than
   * before and their reduction fails, injection stops there with code 0.
   * The earlier slots hold their capped textures, slot i keeps the larger
   * mip count, and later slots are untouched.
   */
  lemma ReductionFailureReportsSuccess(ts: seq<Texture>, rs: seq<Read>, reduceFails: (Texture, nat) -> bool, i: nat)
    requires |rs| == |ts| && i < |ts|
    requires ReachesSlot(ts, rs, reduceFails, 0, i)
    requires rs[i].Got? && rs[i].tex.mips > ts[i].mips && reduceFails(rs[i].tex, ts[i].mips)
    ensures InjectReads(ts, rs, false, reduceFails) == Outcome(0, CappedRange(ts, rs, 0, i)[i := rs[i].tex])
    ensures InjectReads(ts, rs, false, reduceFails).textures[i].mips > ts[i].mips
  {
    RunToReductionFailure(rs, reduceFails, 0, ts, 0, Baseline(0, 0, 0), i);
  }

  /**
   * Slices that were skipped are not compared with the baseline: two
   * 64x64 slices, the second replaced by a 128x128 image, inject
   * successfully into slices of different sizes.
   */
  lemma SkippedSliceNotChecked(reduceFails: (Texture, nat) -> bool)
    ensures var small := Texture(1, 64, 64, 1);
      var large := Texture(1, 128, 128, 1);
      InjectReads([small, small], [Skip, Got(large)], true, reduceFails) == Outcome(0, [small, large])
  {
    var small := Texture(1, 64, 64, 1);
    var large := Texture(1, 128, 128, 1);
    var rs := [Skip, Got(large)];
    var ts := [small, large];
    assert MinMips(ts) == 1;
    assert ReconcileFrom(ts, 1, reduceFails, 1) == Outcome(0, ts);
    assert Reconcile(ts, reduceFails) == Outcome(0, ts);
    assert Run(rs, true, reduceFails, 2, ts, 1, ShapeOf(large)) == Outcome(0, ts);
    assert [small, small][1 := large] == ts;
  }

  /*
   * Slots on disk.
   */

  /**
   * With several units, a slot whose pattern matches two entries fails the
   * whole injection. An array always gets that far; a non-array container
   * gets there when no earlier slot failed and no earlier reduction failed
   * (a failed reduction returns 0 first).
   */
  lemma AmbiguousSlotRejected(ts: seq<Texture>, path: string, isArray: bool, disk: Disk, lib: Library, i: nat)
    requires 1 < |ts| && i < |ts|
    requires Resolve(disk.entries(path), Stem(SlotPrefix(isArray), i)) == Ambiguous
    requires isArray || ReachesSlot(ts, Reads(ts, path, isArray, disk, lib), lib.reduceFails, 0, i)
    ensures Inject(ts, path, isArray, disk, lib).code == -1
  {
    var rs := Reads(ts, path, isArray, disk, lib);
    assert rs[i] == Fail;
    if isArray {
      ArrayInjection(ts, rs, lib.reduceFails);
    } else {
      RunToFailedSlot(rs, lib.reduceFails, 0, ts, 0, Baseline(0, 0, 0), i);
    }
  }

  /**
   * With several units, a slot with no matching entry is left alone: a
   * texture keeps its entry whatever injection returns, an array slice
   * keeps its format and size when injection succeeds.
   */
  lemma MissingSlotKept(ts: seq<Texture>, path: string, isArray: bool, disk: Disk, lib: Library, i: nat)
    requires 1 < |ts| && i < |ts|
    requires Resolve(disk.entries(path), Stem(SlotPrefix(isArray), i)) == Absent
    requires isArray ==> Inject(ts, path, isArray, disk, lib).code == 0
    ensures !isArray ==> Inject(ts, path, isArray, disk, lib).textures[i] == ts[i]
    ensures isArray ==> ShapeOf(Inject(ts, path, isArray, disk, lib).textures[i]) == ShapeOf(ts[i])
  {
    var rs := Reads(ts, path, isArray, disk, lib);
    assert rs[i] == Skip;
    if isArray {
      ArrayInjectionResult(ts, rs, lib.reduceFails);
    } else {
      RunKeepsSkipped(rs, lib.reduceFails, 0, ts, 0, Baseline(0, 0, 0), i);
    }
  }

  /**
   * Injecting from an unmodified extraction directory of at most ten units
   * reads every unit from its own extracted file.
   */
  lemma ExtractionDirectoryFound(ts: seq<Texture>, path: string, isArray: bool, disk: Disk, lib: Library, exts: seq<string>)
    requires 1 < |ts| <= 10 && |exts| == |ts|
    requires forall j :: 0 <= j < |exts| ==> IsDdsSuffix(exts[j])
    requires disk.entries(path) == ExtractedNames(SlotPrefix(isArray), exts)
    ensures forall i :: 0 <= i < |ts| ==>
      Reads(ts, path, isArray, disk, lib)[i] == LoadSlot(ts[i], Join(path, Stem(SlotPrefix(isArray), i) + exts[i]), disk, lib)
  {
    forall i | 0 <= i < |ts|
      ensures Reads(ts, path, isArray, disk, lib)[i] == LoadSlot(ts[i], Join(path, Stem(SlotPrefix(isArray), i) + exts[i]), disk, lib)
    {
      ExtractedSlotFound(ts, path, isArray, disk, lib, exts, i);
    }
  }

  lemma ExtractedSlotFound(ts: seq<Texture>, path: string, isArray: bool, disk: Disk, lib: Library, exts: seq<string>, i: nat)
    requires 1 < |ts| <= 10 && |exts| == |ts| && i < |ts|
    requires forall j :: 0 <= j < |exts| ==> IsDdsSuffix(exts[j])
    requires disk.entries(path) == ExtractedNames(SlotPrefix(isArray), exts)
    ensures ReadSlot(ts[i], i, |ts|, path, isArray, disk, lib) == LoadSlot(ts[i], Join(path, Stem(SlotPrefix(isArray), i) + exts[i]), disk, lib)
  {
    var prefix := SlotPrefix(isArray);
    ExtractedNamesResolve(prefix, exts, i);
    UniqueSlotLoads(ts[i], i, |ts|, path, isArray, disk, lib, Stem(prefix, i) + exts[i]);
  }

  /** A slot whose lookup finds exactly one entry loads that entry from the directory. */
  lemma UniqueSlotLoads(tex: Texture, i: nat, units: nat, path: string, isArray: bool, disk: Disk, lib: Library, name: string)
    requires units > 1
    requires Resolve(disk.entries(path), Stem(SlotPrefix(isArray), i)) == Unique(name)
    ensures ReadSlot(tex, i, units, path, isArray, disk, lib) == LoadSlot(tex, Join(path, name), disk, lib)
  {
  }

  /**
   * With eleven units or more the same directory is rejected, because the
   * pattern of unit 1 also matches the file of unit 10 (for a non-array
   * container, once slot 0 neither failed nor met a failing reduction).
   */
  lemma ExtractionDirectoryRejected(ts: seq<Texture>, path: string, isArray: bool, disk: Disk, lib: Library, exts: seq<string>)
    requires |ts| >= 11 && |exts| == |ts|
    requires forall j :: 0 <= j < |exts| ==> IsDdsSuffix(exts[j])
    requires disk.entries(path) == ExtractedNames(SlotPrefix(isArray), exts)
    requires isArray || ReachesSlot(ts, Reads(ts, path, isArray, disk, lib), lib.reduceFails, 0, 1)
    ensures Inject(ts, path, isArray, disk, lib).code == -1
  {
    ExtractedNamesCollide(SlotPrefix(isArray), exts);
    AmbiguousSlotRejected(ts, path, isArray, disk, lib, 1);
  }
}
