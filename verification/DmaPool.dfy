/** The lock-free shared DMA pool: an allocation is one atomic `fetch_add` on the pool offset, then a
    check against the pool size that other allocations may overtake.  All arithmetic is on 64-bit
    words, as in the source. */
module DmaPool {
  import opened Bytes

  const PAGE_SIZE := 0x1000

  datatype Range = Range(base: nat, size: nat) {
    ghost predicate Disjoint(r: Range) { base + size <= r.base || r.base + r.size <= base }
  }

  /** A thread between its `fetch_add` and its check. */
  datatype Claim = Claim(offset: nat, size: nat)

  /** What a thread may do next: claim some pages, or finish the claim it holds. */
  datatype Step = FetchAdd(thread: nat, pages: nat) | Finish(thread: nat)

  datatype Pool = Pool(base: nat, size: nat, offset: nat, claims: map<nat, Claim>, granted: seq<Range>) {
    function Next(s: Step): Pool {
      match s
      case FetchAdd(t, pages) =>
        if t in claims then this
        else
          var bytes := pages * PAGE_SIZE % TWO_64;
          this.(offset := (offset + bytes) % TWO_64, claims := claims[t := Claim(offset, bytes)])
      case Finish(t) =>
        if t !in claims then this
        else
          var c := claims[t];
          var rest := this.(claims := claims - {t});
          if (c.offset + c.size) % TWO_64 > size then rest
          else rest.(granted := granted + [Range((base + c.offset) % TWO_64, c.size)])
    }
  }

  function Init(base: nat, size: nat): Pool { Pool(base, size, 0, map[], []) }

  function Run(p: Pool, steps: seq<Step>): Pool {
    if steps == [] then p else Run(p, steps[..|steps| - 1]).Next(steps[|steps| - 1])
  }

  /** Bytes asked for in a run, granted or not: a failed allocation moves the offset as well. */
  function Asked(steps: seq<Step>): nat {
    if steps == [] then 0
    else
      var s := steps[|steps| - 1];
      Asked(steps[..|steps| - 1]) + if s.FetchAdd? then s.pages * PAGE_SIZE else 0
  }

  // ---------------------------------------------------------------- what every step keeps

  ghost predicate RangesApart(rs: seq<Range>) {
    forall i, j | 0 <= i < j < |rs| :: rs[i].Disjoint(rs[j])
  }

  /** Claims and grants together never overlap, and all lie below the offset. */
  ghost predicate Inv(p: Pool) {
    && p.base + p.size < TWO_64 && p.offset < TWO_64
    && (forall t <- p.claims :: p.claims[t].offset + p.claims[t].size <= p.offset)
    && (forall t <- p.claims, u <- p.claims | t != u :: At(p, p.claims[t]).Disjoint(At(p, p.claims[u])))
    && (forall i | 0 <= i < |p.granted| ::
          p.base <= p.granted[i].base && p.granted[i].base + p.granted[i].size <= p.base + p.size
          && p.granted[i].base + p.granted[i].size <= p.base + p.offset)
    && RangesApart(p.granted)
    && (forall t, j | t in p.claims && 0 <= j < |p.granted| :: p.granted[j].Disjoint(At(p, p.claims[t])))
  }

  ghost function At(p: Pool, c: Claim): Range { Range(p.base + c.offset, c.size) }

  ghost predicate SamePool(p: Pool, q: Pool) { p.base == q.base && p.size == q.size }

  lemma FetchAddKeeps(p: Pool, t: nat, pages: nat)
    requires Inv(p) && p.offset + pages * PAGE_SIZE < TWO_64
    ensures Inv(p.Next(FetchAdd(t, pages)))
    ensures SamePool(p, p.Next(FetchAdd(t, pages))) && p.Next(FetchAdd(t, pages)).offset <= p.offset + pages * PAGE_SIZE
  {
    hide Inv;
    if t !in p.claims {
      var bytes := pages * PAGE_SIZE;
      assert bytes % TWO_64 == bytes && (p.offset + bytes) % TWO_64 == p.offset + bytes;
      ClaimKeeps(p, t, bytes);
    }
  }

  /** A new claim starts where all others end. */
  lemma ClaimKeeps(p: Pool, t: nat, bytes: nat)
    requires Inv(p) && t !in p.claims && p.offset + bytes < TWO_64
    ensures Inv(p.(offset := p.offset + bytes, claims := p.claims[t := Claim(p.offset, bytes)]))
  {
    var r := At(p, Claim(p.offset, bytes));
    assert forall u <- p.claims :: r.Disjoint(At(p, p.claims[u])) && At(p, p.claims[u]).Disjoint(r);
    assert forall j | 0 <= j < |p.granted| :: p.granted[j].Disjoint(r);
    hide Range.Disjoint;
  }

  /** Finishing a claim either drops it or turns it into a grant of the same range. */
  lemma FinishEffect(p: Pool, t: nat)
    requires Inv(p) && t in p.claims
    ensures var c, p' := p.claims[t], p.Next(Finish(t));
      if c.offset + c.size <= p.size then p' == p.(claims := p.claims - {t}, granted := p.granted + [At(p, c)])
      else p' == p.(claims := p.claims - {t})
  {
    var c := p.claims[t];
    assert (c.offset + c.size) % TWO_64 == c.offset + c.size;
  }

  lemma DropKeeps(p: Pool, t: nat)
    requires Inv(p)
    ensures Inv(p.(claims := p.claims - {t}))
  {
    hide Range.Disjoint;
  }

  lemma GrantKeeps(p: Pool, t: nat)
    requires Inv(p) && t in p.claims && p.claims[t].offset + p.claims[t].size <= p.size
    ensures Inv(p.(claims := p.claims - {t}, granted := p.granted + [At(p, p.claims[t])]))
  {
    hide Range.Disjoint;
    var r := At(p, p.claims[t]);
    assert forall u <- p.claims | u != t :: r.Disjoint(At(p, p.claims[u]));
    assert forall j | 0 <= j < |p.granted| :: p.granted[j].Disjoint(r);
  }

  lemma FinishKeeps(p: Pool, t: nat)
    requires Inv(p)
    ensures Inv(p.Next(Finish(t)))
    ensures SamePool(p, p.Next(Finish(t))) && p.Next(Finish(t)).offset == p.offset
  {
    if t in p.claims {
      FinishEffect(p, t);
      hide Pool.Next;
      if p.claims[t].offset + p.claims[t].size <= p.size { GrantKeeps(p, t); } else { DropKeeps(p, t); }
    }
  }

  lemma {:induction false} RunKeeps(base: nat, size: nat, steps: seq<Step>)
    requires base + size < TWO_64 && Asked(steps) < TWO_64
    ensures var p := Run(Init(base, size), steps);
      Inv(p) && p.base == base && p.size == size && p.offset <= Asked(steps)
  {
    hide Inv;
    hide Pool.Next;
    if steps == [] {
      InitKeeps(base, size);
    } else {
      var front, last := steps[..|steps| - 1], steps[|steps| - 1];
      RunKeeps(base, size, front);
      var p := Run(Init(base, size), front);
      match last {
        case FetchAdd(t, pages) => FetchAddKeeps(p, t, pages);
        case Finish(t) => FinishKeeps(p, t);
      }
    }
  }

  lemma InitKeeps(base: nat, size: nat)
    requires base + size < TWO_64
    ensures Inv(Init(base, size))
  {
  }

  ghost predicate GrantsSound(base: nat, size: nat, steps: seq<Step>) {
    var rs := Run(Init(base, size), steps).granted;
    RangesApart(rs) && forall i | 0 <= i < |rs| :: base <= rs[i].base && rs[i].base + rs[i].size <= base + size
  }

  /** For every interleaving that asks for less than 2^64 bytes in all, the ranges handed out are
      pairwise disjoint and inside the pool. */
  lemma GrantsAreDisjoint(base: nat, size: nat, steps: seq<Step>)
    requires base + size < TWO_64 && Asked(steps) < TWO_64
    ensures GrantsSound(base, size, steps)
  {
    RunKeeps(base, size, steps);
  }

  // ---------------------------------------------------------------- who is granted what

  /** Bytes taken by the claims of a run: a thread that holds a claim does not make another. */
  ghost function Taken(p: Pool, steps: seq<Step>): nat {
    if steps == [] then 0
    else
      var front, s := steps[..|steps| - 1], steps[|steps| - 1];
      Taken(p, front) + if s.FetchAdd? && s.thread !in Run(p, front).claims then s.pages * PAGE_SIZE else 0
  }

  lemma OffsetAfter(p: Pool, s: Step)
    requires p.offset + (if s.FetchAdd? then s.pages * PAGE_SIZE else 0) < TWO_64
    ensures p.Next(s).offset == p.offset + if s.FetchAdd? && s.thread !in p.claims then s.pages * PAGE_SIZE else 0
  {
  }

  lemma {:induction false} OffsetIsTaken(base: nat, size: nat, steps: seq<Step>)
    requires Asked(steps) < TWO_64
    ensures Run(Init(base, size), steps).offset == Taken(Init(base, size), steps) <= Asked(steps)
    decreases |steps|
  {
    hide Pool.Next;
    if steps != [] {
      var front := steps[..|steps| - 1];
      OffsetIsTaken(base, size, front);
      OffsetAfter(Run(Init(base, size), front), steps[|steps| - 1]);
    }
  }

  lemma {:induction false} RunSplit(p: Pool, a: seq<Step>, b: seq<Step>)
    ensures Run(p, a + b) == Run(Run(p, a), b) && Asked(a + b) == Asked(a) + Asked(b)
    decreases |b|
  {
    hide Pool.Next;
    if b == [] {
      assert a + b == a;
    } else {
      RunSplit(p, a, b[..|b| - 1]);
      assert (a + b)[..|a + b| - 1] == a + b[..|b| - 1];
    }
  }

  /** Other threads do not touch a claim. */
  lemma {:induction false} ClaimPersists(p: Pool, steps: seq<Step>, t: nat)
    requires t in p.claims && forall i | 0 <= i < |steps| :: steps[i].thread != t
    ensures t in Run(p, steps).claims && Run(p, steps).claims[t] == p.claims[t]
    ensures Run(p, steps).base == p.base && Run(p, steps).size == p.size
    decreases |steps|
  {
    if steps != [] { ClaimPersists(p, steps[..|steps| - 1], t); }
  }

  /** Whatever other threads do between an allocation's two steps, it is granted exactly when the bytes
      taken before it and its own fit into the pool, and then it gets the range right after them. */
  lemma GrantedIff(base: nat, size: nat, before: seq<Step>, t: nat, pages: nat, between: seq<Step>)
    requires base + size < TWO_64 && Asked(before) + pages * PAGE_SIZE < TWO_64
    requires t !in Run(Init(base, size), before).claims && forall i | 0 <= i < |between| :: between[i].thread != t
    ensures var p := Run(Init(base, size), before + [FetchAdd(t, pages)] + between);
      var at := Taken(Init(base, size), before);
      p.Next(Finish(t)).granted
      == p.granted + if at + pages * PAGE_SIZE <= size then [Range(base + at, pages * PAGE_SIZE)] else []
  {
    hide Pool.Next, Run, Taken, Asked, Inv;
    var start := Init(base, size);
    var p0 := Run(start, before);
    OffsetIsTaken(base, size, before);
    RunKeeps(base, size, before);
    RunOne(start, before, FetchAdd(t, pages));
    FetchAddClaims(p0, t, pages);
    RunSplit(start, before + [FetchAdd(t, pages)], between);
    var p1 := p0.Next(FetchAdd(t, pages));
    ClaimPersists(p1, between, t);
    FinishGrants(Run(p1, between), t);
  }

  lemma RunOne(p: Pool, a: seq<Step>, s: Step)
    ensures Run(p, a + [s]) == Run(p, a).Next(s)
  {
    hide Pool.Next;
    assert (a + [s])[..|a + [s]| - 1] == a;
  }

  lemma FetchAddClaims(p: Pool, t: nat, pages: nat)
    requires t !in p.claims && p.offset + pages * PAGE_SIZE < TWO_64
    ensures var q := p.Next(FetchAdd(t, pages));
      SamePool(p, q) && t in q.claims && q.claims[t] == Claim(p.offset, pages * PAGE_SIZE)
  {
  }

  lemma FinishGrants(p: Pool, t: nat)
    requires t in p.claims && p.base + p.size < TWO_64 && p.claims[t].offset + p.claims[t].size < TWO_64
    ensures var c := p.claims[t];
      p.Next(Finish(t)).granted == p.granted + if c.offset + c.size <= p.size then [At(p, c)] else []
  {
    var c := p.claims[t];
    assert (c.offset + c.size) % TWO_64 == c.offset + c.size;
  }

  /** Where the offset wraps the check no longer protects the pool: an oversized second request is
      granted although it runs past the end. */
  lemma WrappedRequestIsGranted()
    ensures var steps := [FetchAdd(1, 1), FetchAdd(2, 0x10_0000_0000_0000 - 1), Finish(2)];
      && Asked(steps) == TWO_64
      && Run(Init(0x4000_0000, 0x2000), steps).granted == [Range(0x4000_1000, TWO_64 - PAGE_SIZE)]
  {
    var a, b, c := FetchAdd(1, 1), FetchAdd(2, 0x10_0000_0000_0000 - 1), Finish(2);
    var p0 := Init(0x4000_0000, 0x2000);
    assert [a, b, c][..2] == [a, b] && [a, b][..1] == [a] && [a][..0] == [];
    assert Run(p0, [a]) == p0.Next(a);
    assert Run(p0, [a, b]) == p0.Next(a).Next(b);
    assert Asked([a, b]) == Asked([a]) + b.pages * PAGE_SIZE;
  }

  /** Callers that ask for at most `budget` bytes in all get disjoint ranges inside every pool, in every
      interleaving, exactly when the budget is below 2^64. */
  lemma GrantsSoundIff(budget: nat)
    ensures (forall base: nat, size: nat, steps | base + size < TWO_64 && Asked(steps) <= budget :: GrantsSound(base, size, steps))
       <==> budget < TWO_64
  {
    hide Run, Asked, RangesApart;
    if budget < TWO_64 {
      forall base: nat, size: nat, steps | base + size < TWO_64 && Asked(steps) <= budget ensures GrantsSound(base, size, steps) {
        GrantsAreDisjoint(base, size, steps);
      }
    } else {
      WrappedRequestIsGranted();
      var steps := [FetchAdd(1, 1), FetchAdd(2, 0x10_0000_0000_0000 - 1), Finish(2)];
      assert Run(Init(0x4000_0000, 0x2000), steps).granted[0] == Range(0x4000_1000, TWO_64 - PAGE_SIZE);
      assert !GrantsSound(0x4000_0000, 0x2000, steps);
    }
  }
}
