/** Runs of alloc_frame and free_frame over page entries (kernel/cpu/paging/paging.c). */
module FrameRuns {
  import opened Frames

  /** Frames marked in the bitmap, and the frame each page entry holds (0: none). */
  datatype Sys = Sys(used: set<nat>, held: map<nat, nat>) {
    function Holds(p: nat): nat {
      if p in held then held[p] else 0
    }
  }

  datatype Op = Take(page: nat) | Drop(page: nat)

  /** The least frame from f on that is not used, limit when there is none. */
  function FirstFree(used: set<nat>, f: nat, limit: nat): (r: nat)
    requires f <= limit
    ensures f <= r <= limit
    ensures r < limit ==> r !in used
    ensures forall g: nat :: f <= g < r ==> g in used
    decreases limit - f
  {
    if f == limit || f !in used then f else FirstFree(used, f + 1, limit)
  }

  function Taken(s: Sys, p: nat, limit: nat): Sys {
    var f := FirstFree(s.used, 0, limit);
    if s.Holds(p) != 0 || f == limit then s else Sys(s.used + {f}, s.held[p := f])
  }

  function Dropped(s: Sys, p: nat): Sys {
    if s.Holds(p) == 0 then s else Sys(s.used - {s.Holds(p)}, s.held[p := 0])
  }

  function DroppedAsWritten(s: Sys, p: nat): Sys {
    if s.Holds(p) == 0 then s else Sys(s.used - {s.Holds(p) / PAGE_SIZE}, s.held[p := 0])
  }

  function Run(s: Sys, ops: seq<Op>, limit: nat): Sys
    decreases |ops|
  {
    if ops == [] then s
    else Run(match ops[0] case Take(p) => Taken(s, p, limit) case Drop(p) => Dropped(s, p), ops[1..], limit)
  }

  function RunAsWritten(s: Sys, ops: seq<Op>, limit: nat): Sys
    decreases |ops|
  {
    if ops == [] then s
    else RunAsWritten(match ops[0] case Take(p) => Taken(s, p, limit) case Drop(p) => DroppedAsWritten(s, p),
                      ops[1..], limit)
  }

  ghost predicate Distinct(s: Sys) {
    forall p: nat, q: nat :: s.Holds(p) != 0 && s.Holds(p) == s.Holds(q) ==> p == q
  }

  ghost predicate Marked(s: Sys, limit: nat) {
    forall p: nat :: s.Holds(p) != 0 ==> s.Holds(p) in s.used && s.Holds(p) < limit
  }

  /** Every used frame is frame 0 or held by some entry. */
  ghost predicate Accounted(s: Sys) {
    forall f: nat :: f in s.used ==> f == 0 || exists p :: p in s.held && s.held[p] == f
  }

  /** The bitmap is exactly frame 0 plus the frames held, each held once. */
  ghost predicate Exact(s: Sys, limit: nat) {
    Distinct(s) && Marked(s, limit) && Accounted(s) && 0 in s.used
  }

  lemma TakenHolds(s: Sys, p: nat, limit: nat)
    ensures var t := Taken(s, p, limit);
      && s.used <= t.used
      && (forall q: nat :: t.Holds(q) == s.Holds(q) || (q == p && s.Holds(p) == 0 && t.Holds(p) !in s.used
                                                         && t.Holds(p) in t.used && t.Holds(p) < limit))
  {
  }

  lemma DroppedHolds(s: Sys, p: nat)
    ensures forall q: nat :: Dropped(s, p).Holds(q) == (if q == p then 0 else s.Holds(q))
    ensures forall q: nat :: DroppedAsWritten(s, p).Holds(q) == (if q == p then 0 else s.Holds(q))
  {
  }

  lemma TakenExact(s: Sys, p: nat, limit: nat)
    requires Exact(s, limit)
    ensures Exact(Taken(s, p, limit), limit)
    ensures Taken(s, p, limit).Holds(p) != 0 || Taken(s, p, limit) == s
  {
    var t := Taken(s, p, limit);
    TakenHolds(s, p, limit);
    forall f: nat | f in t.used ensures f == 0 || exists q :: q in t.held && t.held[q] == f {
      if f in s.used && f != 0 {
        var q :| q in s.held && s.held[q] == f;
        assert t.held[q] == f;
      } else if f != 0 {
        assert t.held[p] == f;
      }
    }
  }

  lemma DroppedExact(s: Sys, p: nat, limit: nat)
    requires Exact(s, limit)
    ensures Exact(Dropped(s, p), limit)
  {
    var t := Dropped(s, p);
    DroppedHolds(s, p);
    forall f: nat | f in t.used ensures f == 0 || exists q :: q in t.held && t.held[q] == f {
      if f != 0 {
        var q :| q in s.held && s.held[q] == f;
        assert t.held[q] == f;
      }
    }
  }

  /** With the repaired free_frame and frame 0 reserved, the bitmap stays exact over every run. */
  lemma {:induction false} RunExact(s: Sys, ops: seq<Op>, limit: nat)
    requires Exact(s, limit)
    ensures Exact(Run(s, ops, limit), limit)
    decreases |ops|
  {
    if ops != [] {
      match ops[0] {
        case Take(p) =>
          TakenExact(s, p, limit);
          RunExact(Taken(s, p, limit), ops[1..], limit);
        case Drop(p) =>
          DroppedExact(s, p, limit);
          RunExact(Dropped(s, p), ops[1..], limit);
      }
    }
  }

  /** As written, no two entries ever hold the same frame and each held frame keeps its bit. */
  lemma {:induction false} RunAsWrittenDistinct(s: Sys, ops: seq<Op>, limit: nat)
    requires Distinct(s) && Marked(s, limit) && limit <= PAGE_SIZE
    ensures Distinct(RunAsWritten(s, ops, limit)) && Marked(RunAsWritten(s, ops, limit), limit)
    decreases |ops|
  {
    if ops != [] {
      match ops[0] {
        case Take(p) =>
          TakenHolds(s, p, limit);
          RunAsWrittenDistinct(Taken(s, p, limit), ops[1..], limit);
        case Drop(p) =>
          DroppedHolds(s, p);
          RunAsWrittenDistinct(DroppedAsWritten(s, p), ops[1..], limit);
      }
    }
  }

  /** As written, freeing keeps the bitmap exact only when the entry holds nothing: the frame it held stays marked
      and the reserved frame 0 is released instead. */
  lemma DroppedAsWrittenExact(s: Sys, p: nat, limit: nat)
    requires Exact(s, limit) && limit <= PAGE_SIZE
    ensures Exact(DroppedAsWritten(s, p), limit) <==> s.Holds(p) == 0
    ensures s.Holds(p) != 0 ==> s.Holds(p) in DroppedAsWritten(s, p).used && 0 !in DroppedAsWritten(s, p).used
  {
  }
}
