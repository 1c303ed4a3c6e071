/** TLB to page-map maintenance of COP0.cpp: a flat page map kept up to date as TLB entries are
    replaced.  The map is indexed by virtual page number, the virtual address divided by 4096. */
module Tlb {
  import opened Arithmetic

  type u32 = x: int | 0 <= x < 0x1_0000_0000

  const PAGES: int := 0x10_0000

  // ---------------------------------------------------------------- bitwise and

  /** x & y. */
  function And(x: nat, y: nat): nat
    decreases x
  {
    if x == 0 then 0 else 2 * And(x / 2, y / 2) + (x % 2) * (y % 2)
  }

  /** ~x. */
  function Not(x: u32): u32 { 0xFFFF_FFFF - x }

  // ---------------------------------------------------------------- entries

  /** The fields of struct tlbs that mapping depends on. */
  datatype Entry = Entry(
    pageMask: u32, entryHi: u32, entryLo0: u32, entryLo1: u32,
    mask: u32, vpn2: u32, pfn0: u32, pfn1: u32, scratch: bool)

  const NO_ENTRY: Entry := Entry(0, 0, 0, 0, 0, 0, 0, 0, false)

  /** Where a virtual page leads: a physical address, or a page of the scratchpad. */
  datatype Target = Phys(addr: u32) | Scratchpad(page: nat)

  type PageMap = map<nat, Target>

  /** The fields WriteTLB derives from the CP0 registers. */
  function FromRegisters(pageMask: u32, entryHi: u32, entryLo0: u32, entryLo1: u32): Entry {
    var mask := And(pageMask / 0x2000, 0xFFF);
    AndBelow(pageMask / 0x2000, 0xFFF);
    AndBelow(entryHi / 0x2000, Not(mask));
    AndBelow(And(entryLo0 / 0x40, 0xF_FFFF), Not(mask));
    AndBelow(entryLo0 / 0x40, 0xF_FFFF);
    AndBelow(And(entryLo1 / 0x40, 0xF_FFFF), Not(mask));
    AndBelow(entryLo1 / 0x40, 0xF_FFFF);
    Entry(pageMask, entryHi, entryLo0, entryLo1, mask,
          And(entryHi / 0x2000, Not(mask)) * 0x2000,
          And(And(entryLo0 / 0x40, 0xF_FFFF), Not(mask)) * 0x1000,
          And(And(entryLo1 / 0x40, 0xF_FFFF), Not(mask)) * 0x1000,
          entryLo0 >= 0x8000_0000)
  }

  lemma {:induction false} AndBelow(x: nat, y: nat)
    ensures And(x, y) <= x && And(x, y) <= y
    decreases x
  {
    if x > 0 { AndBelow(x / 2, y / 2); }
  }

  // ---------------------------------------------------------------- what an entry means

  predicate Valid0(e: Entry) { e.entryLo0 / 2 % 2 == 1 }
  predicate Valid1(e: Entry) { e.entryLo1 / 2 % 2 == 1 }

  /** The `mask` of the loops: ((~Mask) << 1) & 0xfffff. */
  function PageBits(mask: u32): nat { And(Not(mask) * 2 % 0x1_0000_0000, 0xF_FFFF) }

  /** The test in the loops. */
  predicate Matches(e: Entry, p: nat) {
    And(p, PageBits(e.mask)) == And(e.vpn2 / 0x1000, PageBits(e.mask))
  }

  function Start(e: Entry): nat { e.vpn2 / 0x1000 }

  predicate InEven(e: Entry, p: nat) {
    Valid0(e) && Start(e) <= p < Start(e) + e.mask + 1 && Matches(e, p)
  }

  predicate InOdd(e: Entry, p: nat) {
    Valid1(e) && Start(e) + e.mask + 1 <= p < Start(e) + 2 * (e.mask + 1) && Matches(e, p)
  }

  /** How far a page lies from where an entry starts, in 32-bit addresses, which wrap. */
  function Offset(e: Entry, p: nat): int {
    if p >= Start(e) then p - Start(e) else p + PAGES - Start(e)
  }

  /** The four pages of vtlb_VMapBuffer and vtlb_VMapUnmap. */
  predicate InScratch(e: Entry, p: nat) {
    e.scratch && p < PAGES && 0 <= Offset(e, p) < 4
  }

  /** MapTLB stops before the halves of an entry at this address. */
  const SCRATCH_VPN2: u32 := 0x7000_0000

  function Frame(pfn: u32, offset: nat): u32 { (pfn + offset * 0x1000) % 0x1_0000_0000 }

  datatype Option<T> = None | Some(value: T)

  /** The translation an entry gives a page. */
  function Denotes(e: Entry, p: nat): Option<Target> {
    if e.vpn2 != SCRATCH_VPN2 && InOdd(e, p) then Some(Phys(Frame(e.pfn1, p - (Start(e) + e.mask + 1))))
    else if e.vpn2 != SCRATCH_VPN2 && InEven(e, p) then Some(Phys(Frame(e.pfn0, p - Start(e))))
    else if InScratch(e, p) then Some(Scratchpad(Offset(e, p)))
    else None
  }

  /** The pages UnmapTLB clears. */
  predicate Clears(e: Entry, p: nat) {
    if e.scratch then InScratch(e, p) else InEven(e, p) || InOdd(e, p)
  }

  function Lookup(m: PageMap, p: nat): Option<Target> {
    if p in m then Some(m[p]) else None
  }

  // ---------------------------------------------------------------- map and entries

  /** v is the one translation the entries give p, or there is none. */
  ghost predicate AgreesAt(v: Option<Target>, es: seq<Entry>, p: nat) {
    && (forall i | 0 <= i < |es| :: Denotes(es[i], p).None? || Denotes(es[i], p) == v)
    && (v.Some? ==> exists i | 0 <= i < |es| :: Denotes(es[i], p) == v)
  }

  /** The flat map is the union of the translations of the entries. */
  ghost predicate IsUnion(m: PageMap, es: seq<Entry>) {
    forall p: nat :: AgreesAt(Lookup(m, p), es, p)
  }

  /** What replacing an entry does to one page. */
  function Rewritten(v: Option<Target>, was: Entry, now: Entry, p: nat): Option<Target> {
    if Denotes(now, p).Some? then Denotes(now, p) else if Clears(was, p) then None else v
  }

  /** The other entries neither lose a page to the unmapping of entry j nor contradict the new
      one, and what the unmapping leaves behind is theirs. */
  ghost predicate CompatibleAt(es: seq<Entry>, j: nat, now: Entry, p: nat)
    requires j < |es|
  {
    if Denotes(now, p).Some? then
      forall i | 0 <= i < |es| && i != j :: Denotes(es[i], p).None? || Denotes(es[i], p) == Denotes(now, p)
    else if Clears(es[j], p) then
      forall i | 0 <= i < |es| && i != j :: Denotes(es[i], p).None?
    else
      Denotes(es[j], p).Some? ==> exists i | 0 <= i < |es| :: i != j && Denotes(es[i], p).Some?
  }

  ghost predicate Compatible(es: seq<Entry>, j: nat, now: Entry)
    requires j < |es|
  {
    forall p: nat :: CompatibleAt(es, j, now, p)
  }

  lemma RewriteAt(v: Option<Target>, es: seq<Entry>, j: nat, now: Entry, p: nat)
    requires j < |es| && AgreesAt(v, es, p)
    ensures AgreesAt(Rewritten(v, es[j], now, p), es[j := now], p) <==> CompatibleAt(es, j, now, p)
  {
    var fs, w := es[j := now], Rewritten(v, es[j], now, p);
    assert fs[j] == now;
    assert forall i | 0 <= i < |es| && i != j :: fs[i] == es[i];
    if CompatibleAt(es, j, now, p) {
      if w.Some? && Denotes(now, p).None? {
        if Denotes(es[j], p).Some? {
          var i :| 0 <= i < |es| && i != j && Denotes(es[i], p).Some?;
          assert Denotes(fs[i], p) == w;
        } else {
          var i :| 0 <= i < |es| && Denotes(es[i], p) == v;
          assert Denotes(fs[i], p) == w;
        }
      }
    }
    if AgreesAt(w, fs, p) && Denotes(now, p).None? && !Clears(es[j], p) && Denotes(es[j], p).Some? {
      var i :| 0 <= i < |fs| && Denotes(fs[i], p) == w;
      assert i != j && Denotes(es[i], p).Some?;
    }
    forall i | 0 <= i < |es| && i != j ensures Denotes(fs[i], p) == Denotes(es[i], p) {}
  }

  /** Replacing an entry keeps the flat map equal to the union of the entries exactly when the
      new entry is compatible with the others. */
  lemma RewriteExact(m: PageMap, m': PageMap, es: seq<Entry>, j: nat, now: Entry)
    requires j < |es| && IsUnion(m, es)
    requires forall p: nat :: Lookup(m', p) == Rewritten(Lookup(m, p), es[j], now, p)
    ensures IsUnion(m', es[j := now]) <==> Compatible(es, j, now)
  {
    forall p: nat
      ensures AgreesAt(Lookup(m', p), es[j := now], p) <==> CompatibleAt(es, j, now, p)
    {
      RewriteAt(Lookup(m, p), es, j, now, p);
    }
  }

  /** UnmapTLB clears every page MapTLB mapped. */
  ghost predicate Tidy(e: Entry) {
    forall p: nat :: Denotes(e, p).Some? ==> Clears(e, p)
  }

  /** Entries whose pages are apart are compatible. */
  lemma ApartIsCompatible(es: seq<Entry>, j: nat, now: Entry)
    requires j < |es| && Tidy(es[j])
    requires forall p: nat, i | 0 <= i < |es| && i != j && Denotes(es[i], p).Some? ::
               Denotes(now, p).None? && !Clears(es[j], p)
    ensures Compatible(es, j, now)
  {
  }

  /** Two entries for one page: replacing either takes the page from the other. */
  lemma OverlapLosesPage(es: seq<Entry>, i: nat, j: nat, now: Entry, p: nat)
    requires i < |es| && j < |es| && i != j
    requires Denotes(es[i], p).Some? && Clears(es[j], p) && Denotes(now, p).None?
    ensures !Compatible(es, j, now)
    ensures forall v :: Rewritten(v, es[j], now, p).None?
  {
    assert !CompatibleAt(es, j, now, p);
  }

  // ---------------------------------------------------------------- disjoint ranges

  /** The first page after those of the two halves. */
  function End(e: Entry): nat { Start(e) + 2 * (e.mask + 1) }

  predicate InUse(e: Entry) { Valid0(e) || Valid1(e) }

  /** Not for the scratchpad in any way. */
  predicate Plain(e: Entry) { !e.scratch && e.vpn2 != SCRATCH_VPN2 }

  /** No two valid entries share a page of their ranges. */
  predicate Apart(e: Entry, f: Entry) {
    InUse(e) && InUse(f) ==> End(e) <= Start(f) || End(f) <= Start(e)
  }

  ghost predicate Disjoint(es: seq<Entry>) {
    && (forall i | 0 <= i < |es| :: Plain(es[i]))
    && (forall i, j | 0 <= i < |es| && 0 <= j < |es| && i != j :: Apart(es[i], es[j]))
  }

  /** What an entry denotes or clears lies in its range. */
  lemma InRange(e: Entry, p: nat)
    requires Plain(e) && (Denotes(e, p).Some? || Clears(e, p))
    ensures InUse(e) && Start(e) <= p < End(e)
  {
  }

  lemma PlainTidy(e: Entry)
    requires Plain(e)
    ensures Tidy(e)
  {
  }

  /** Entries with disjoint ranges, before and after, are compatible. */
  lemma DisjointIsCompatible(es: seq<Entry>, j: nat, now: Entry)
    requires j < |es| && Disjoint(es) && Disjoint(es[j := now])
    ensures Compatible(es, j, now)
  {
    PlainTidy(es[j]);
    var fs := es[j := now];
    forall p: nat, i | 0 <= i < |es| && i != j && Denotes(es[i], p).Some?
      ensures Denotes(now, p).None? && !Clears(es[j], p)
    {
      assert fs[j] == now && fs[i] == es[i] && Apart(fs[i], fs[j]) && Apart(es[i], es[j]);
      InRange(es[i], p);
      if Clears(es[j], p) { InRange(es[j], p); }
      if Denotes(now, p).Some? { InRange(now, p); }
    }
    ApartIsCompatible(es, j, now);
  }

  /** The TLB and the page map. */
  datatype Mapping = Mapping(entries: seq<Entry>, pages: PageMap)

  /** TLBWI or TLBWR, of entry j. */
  ghost predicate Replaced(s: Mapping, j: nat, now: Entry, t: Mapping) {
    && j < |s.entries| && t.entries == s.entries[j := now]
    && forall p: nat :: Lookup(t.pages, p) == Rewritten(Lookup(s.pages, p), s.entries[j], now, p)
  }

  ghost predicate ReplacedAny(s: Mapping, t: Mapping) {
    exists j: nat, now: Entry :: Replaced(s, j, now, t)
  }

  /** Any run of replacements that keeps the ranges disjoint, whatever the entries and in whatever order. */
  ghost predicate DisjointRun(run: seq<Mapping>) {
    && (forall i | 0 <= i < |run| :: Disjoint(run[i].entries))
    && (forall i | 0 < i < |run| :: ReplacedAny(run[i - 1], run[i]))
  }

  /** Over such a run the page map stays the union of the entries. */
  lemma {:induction false} DisjointRunsKeepUnion(run: seq<Mapping>, k: nat)
    requires k < |run| && DisjointRun(run) && IsUnion(run[0].pages, run[0].entries)
    ensures IsUnion(run[k].pages, run[k].entries)
  {
    if k > 0 {
      DisjointRunsKeepUnion(run, k - 1);
      DisjointStep(run[k - 1], run[k]);
    }
  }

  lemma DisjointStep(s: Mapping, t: Mapping)
    requires ReplacedAny(s, t) && Disjoint(s.entries) && Disjoint(t.entries) && IsUnion(s.pages, s.entries)
    ensures IsUnion(t.pages, t.entries)
  {
    var j: nat, now: Entry :| Replaced(s, j, now, t);
    DisjointIsCompatible(s.entries, j, now);
    RewriteExact(s.pages, t.pages, s.entries, j, now);
  }

  // ---------------------------------------------------------------- contiguous page masks

  /** The number whose bits j and up, below n, are set. */
  function Ones(n: nat, j: nat): nat {
    if n == 0 then 0 else if j == 0 then 2 * Ones(n - 1, 0) + 1 else 2 * Ones(n - 1, j - 1)
  }

  /** A multiple of 2^k. */
  predicate Aligned(s: nat, k: nat) {
    k == 0 || (s % 2 == 0 && Aligned(s / 2, k - 1))
  }

  /** One bit of a conjunction. */
  lemma AndStep(x: nat, y: nat, b: nat)
    requires b <= 1
    ensures And(x, 2 * y + b) == 2 * And(x / 2, y) + x % 2 * b
  {
  }

  lemma {:induction false} OnesSplit(n: nat, k: nat)
    requires k <= n
    ensures Ones(n, 0) - Ones(k, 0) == Ones(n, k)
    decreases n
  {
    if k > 0 { OnesSplit(n - 1, k - 1); }
  }

  lemma {:induction false} OnesAligned(n: nat, k: nat)
    ensures Aligned(Ones(n, k), k)
    decreases k
  {
    if k > 0 {
      var m := if n > 0 then n - 1 else 0;
      OnesAligned(m, k - 1);
      assert Ones(n, k) == 2 * Ones(m, k - 1);
    }
  }

  lemma {:induction false} AndAligned(x: nat, y: nat, k: nat)
    requires Aligned(y, k)
    ensures Aligned(And(x, y), k)
    decreases k
  {
    if k > 0 { AndAligned(x / 2, y / 2, k - 1); }
  }

  lemma {:induction false} AlignedFits(s: nat, k: nat, n: nat)
    requires Aligned(s, k) && k <= n && s <= Ones(n, 0)
    ensures s + Ones(k, 0) <= Ones(n, 0)
    decreases k
  {
    if k > 0 { AlignedFits(s / 2, k - 1, n - 1); }
  }

  /** Masking off the low k bits does not tell apart the numbers of one aligned stretch. */
  lemma {:induction false} SameStretch(p: nat, s: nat, k: nat, n: nat)
    requires Aligned(s, k) && k <= n && s <= p <= s + Ones(k, 0)
    ensures And(p, Ones(n, k)) == And(s, Ones(n, k))
    decreases k
  {
    if k > 0 {
      SameStretch(p / 2, s / 2, k - 1, n - 1);
      AndStep(p, Ones(n - 1, k - 1), 0);
      AndStep(s, Ones(n - 1, k - 1), 0);
    }
  }

  /** Keeping the low m bits. */
  lemma {:induction false} AndOnes(n: nat, m: nat, j: nat)
    requires j <= m <= n
    ensures And(Ones(n, j), Ones(m, 0)) == Ones(m, j)
    decreases m
  {
    var x := Ones(n, j);
    if m == 0 {
      AndBelow(x, 0);
    } else {
      AndStep(x, Ones(m - 1, 0), 1);
      if j == 0 {
        AndOnes(n - 1, m - 1, 0);
        assert x / 2 == Ones(n - 1, 0) && x % 2 == 1;
      } else {
        AndOnes(n - 1, m - 1, j - 1);
        assert x / 2 == Ones(n - 1, j - 1) && x % 2 == 0;
      }
    }
  }

  lemma FullWords()
    ensures Ones(32, 0) == 0xFFFF_FFFF && Ones(20, 0) == 0xF_FFFF && Ones(12, 0) == 0xFFF
  {
    assert Ones(8, 0) == 0xFF;
    assert Ones(16, 0) == 0xFFFF;
    assert Ones(24, 0) == 0xFF_FFFF;
  }

  lemma PageBitsIs(mask: u32, k: nat)
    requires k <= 12 && mask == Ones(k, 0)
    ensures PageBits(mask) == Ones(20, k + 1)
  {
    FullWords();
    OnesSplit(12, k);
    OnesSplit(32, k + 1);
    assert Not(mask) * 2 % 0x1_0000_0000 == 0xFFFF_FFFF - (2 * mask + 1);
    AndOnes(32, 20, k + 1);
  }

  /** An entry whose page mask is contiguous, k ones, and whose address is aligned to match. */
  ghost predicate Contiguous(e: Entry, k: nat) {
    k <= 12 && e.mask == Ones(k, 0) && Start(e) < PAGES && Aligned(Start(e), k + 1)
  }

  /** WriteTLB aligns the address of every entry with a contiguous page mask. */
  lemma RegistersAreAligned(pageMask: u32, entryHi: u32, entryLo0: u32, entryLo1: u32, k: nat)
    requires k <= 12 && FromRegisters(pageMask, entryHi, entryLo0, entryLo1).mask == Ones(k, 0)
    ensures Contiguous(FromRegisters(pageMask, entryHi, entryLo0, entryLo1), k)
  {
    AlignedAddress(entryHi, FromRegisters(pageMask, entryHi, entryLo0, entryLo1).mask, k);
  }

  lemma AlignedAddress(entryHi: u32, mask: u32, k: nat)
    requires mask == Ones(k, 0) && k <= 12
    ensures var start := And(entryHi / 0x2000, Not(mask)) * 0x2000 / 0x1000;
            start < PAGES && Aligned(start, k + 1)
  {
    AlignedComplement(mask, k);
    AndAligned(entryHi / 0x2000, Not(mask), k);
    AndBelow(entryHi / 0x2000, Not(mask));
    Doubled(And(entryHi / 0x2000, Not(mask)), k);
  }

  lemma AlignedComplement(mask: u32, k: nat)
    requires mask == Ones(k, 0) && k <= 12
    ensures Aligned(Not(mask), k)
  {
    FullWords();
    OnesSplit(32, k);
    OnesAligned(32, k);
  }

  lemma Doubled(high: nat, k: nat)
    requires Aligned(high, k) && high < 0x8_0000
    ensures high * 0x2000 / 0x1000 < PAGES && Aligned(high * 0x2000 / 0x1000, k + 1)
  {
  }

  /** With a contiguous page mask the even and the odd half cover exactly Mask + 1 pages each,
      side by side, and the pair lies within the address space. */
  lemma HalvesCover(e: Entry, k: nat)
    requires Contiguous(e, k)
    ensures Start(e) + 2 * (e.mask + 1) <= PAGES
    ensures forall p: nat :: InEven(e, p) <==> Valid0(e) && Start(e) <= p < Start(e) + e.mask + 1
    ensures forall p: nat :: InOdd(e, p) <==> Valid1(e) && Start(e) + e.mask + 1 <= p < Start(e) + 2 * (e.mask + 1)
  {
    FullWords();
    AlignedFits(Start(e), k + 1, 20);
    PageBitsIs(e.mask, k);
    forall p: nat | Start(e) <= p < Start(e) + 2 * (e.mask + 1) ensures Matches(e, p) {
      SameStretch(p, Start(e), k + 1, 20);
    }
  }

  /** With a contiguous page mask, unmapping undoes mapping exactly when the entry is not for the
      scratchpad, or is at the scratchpad's usual place, or has no page beyond its first four. */
  lemma TidyExactly(e: Entry, k: nat)
    requires Contiguous(e, k)
    ensures Tidy(e) <==> (e.scratch && e.vpn2 != SCRATCH_VPN2 ==>
                            (Valid0(e) ==> e.mask + 1 <= 4) && (Valid1(e) ==> 2 * (e.mask + 1) <= 4))
  {
    HalvesCover(e, k);
    if e.scratch && e.vpn2 != SCRATCH_VPN2 {
      if Valid0(e) && e.mask + 1 > 4 {
        assert InEven(e, Start(e) + 4) && Denotes(e, Start(e) + 4).Some? && !Clears(e, Start(e) + 4);
      } else if Valid1(e) && 2 * (e.mask + 1) > 4 {
        var p := Start(e) + 2 * (e.mask + 1) - 1;
        assert InOdd(e, p) && Denotes(e, p).Some? && !Clears(e, p);
      }
    }
  }

  /** Page number n of the stretch is the one page at offset n. */
  lemma WrapsBack(e: Entry, n: nat, page: nat)
    requires n < 4 && page == (Start(e) + n) % PAGES
    ensures forall p: nat | p < PAGES :: Offset(e, p) == n <==> p == page
  {
  }

  lemma EmptyUnion(es: seq<Entry>)
    requires forall i | 0 <= i < |es| :: !Valid0(es[i]) && !Valid1(es[i]) && !es[i].scratch
    ensures IsUnion(map[], es)
  {
  }

  /** It maps page 0 to the second page of memory, and nothing else. */
  predicate ZeroToOne(e: Entry) {
    Plain(e) && e.mask == 0 && e.vpn2 == 0 && Valid0(e) && !Valid1(e) && e.pfn0 == 0x1000
  }

  lemma MapsPageZero(e: Entry)
    requires ZeroToOne(e)
    ensures forall p: nat :: Denotes(e, p) == if p == 0 then Some(Phys(0x1000)) else None
    ensures forall p: nat :: Clears(e, p) <==> p == 0
  {
    HalvesCover(e, 0);
    forall p: nat
      ensures Denotes(e, p) == (if p == 0 then Some(Phys(0x1000)) else None) && (Clears(e, p) <==> p == 0)
    {
      assert InEven(e, p) <==> p == 0;
      assert !InOdd(e, p) && !InScratch(e, p);
    }
  }

  /** Two such entries: with the first invalidated, the second has lost its page. */
  lemma SameEntryTwice(e: Entry, now: Entry)
    requires ZeroToOne(e) && !InUse(now) && !now.scratch
    ensures IsUnion(map[0 := Phys(0x1000)], [e, e])
    ensures !Compatible([e, e], 0, now) && Rewritten(Some(Phys(0x1000)), e, now, 0).None?
  {
    MapsPageZero(e);
    var es := [e, e];
    assert es[0] == e && es[1] == e;
    forall p: nat ensures AgreesAt(Lookup(map[0 := Phys(0x1000)], p), es, p) {
      assert Denotes(es[0], p) == Lookup(map[0 := Phys(0x1000)], p);
    }
    OverlapLosesPage(es, 1, 0, now, 0);
  }

  /** The scratchpad at its usual place: four pages, and no others. */
  lemma UsualScratchpad(e: Entry, p: nat)
    requires e.scratch && e.vpn2 == 0x7000_0000
    ensures Denotes(e, p) == if 0x7_0000 <= p < 0x7_0004 then Some(Scratchpad(p - 0x7_0000)) else None
    ensures Clears(e, p) <==> 0x7_0000 <= p < 0x7_0004
  {
  }

  /** A scratchpad entry of eight pages keeps four of them mapped. */
  lemma ScratchLeavesPages(e: Entry)
    requires e.scratch && e.vpn2 == 0 && e.mask == 3 && Valid0(e) && Valid1(e)
    ensures !Tidy(e)
  {
    assert Ones(2, 0) == 3;
    TidyExactly(e, 2);
  }

  // ---------------------------------------------------------------- what the registers mean

  function Pow2(k: nat): nat { if k == 0 then 1 else 2 * Pow2(k - 1) }

  lemma {:induction false} OnesPow(k: nat)
    ensures Ones(k, 0) == Pow2(k) - 1
  {
    if k > 0 { OnesPow(k - 1); }
  }

  /** The low k bits of a number. */
  function LowBits(x: nat, k: nat): (r: nat)
    ensures r <= x
  {
    if k == 0 then 0 else 2 * LowBits(x / 2, k - 1) + x % 2
  }

  /** That is the remainder by 2^k. */
  lemma {:induction false} LowBitsRemain(x: nat, k: nat) returns (q: nat)
    ensures x == Pow2(k) * q + LowBits(x, k) && LowBits(x, k) < Pow2(k)
    ensures Pow2(k) > 0 && LowBits(x, k) == x % Pow2(k)
    decreases k
  {
    if k == 0 {
      q := x;
    } else {
      q := LowBitsRemain(x / 2, k - 1);
      assert 2 * Pow2(k - 1) * q == 2 * (Pow2(k - 1) * q);
    }
    Quotient(x, Pow2(k), q, LowBits(x, k));
  }

  /** A mask of k ones keeps the low bits. */
  lemma {:induction false} AndLow(x: nat, k: nat)
    ensures And(x, Ones(k, 0)) == LowBits(x, k)
    decreases k
  {
    if k == 0 {
      AndBelow(x, 0);
    } else {
      AndLow(x / 2, k - 1);
      AndStep(x, Ones(k - 1, 0), 1);
    }
  }

  /** Its complement clears them. */
  lemma {:induction false} AndHigh(x: nat, n: nat, k: nat)
    requires k <= n && x <= Ones(n, 0)
    ensures And(x, Ones(n, k)) == x - LowBits(x, k)
    decreases k
  {
    if k == 0 {
      AndAll(x, n);
    } else {
      AndHigh(x / 2, n - 1, k - 1);
      AndStep(x, Ones(n - 1, k - 1), 0);
    }
  }

  lemma {:induction false} AndAll(x: nat, n: nat)
    requires x <= Ones(n, 0)
    ensures And(x, Ones(n, 0)) == x
  {
    if n > 0 {
      AndAll(x / 2, n - 1);
      AndStep(x, Ones(n - 1, 0), 1);
    }
  }

  lemma Powers()
    ensures Pow2(12) == 0x1000 && Pow2(20) == 0x10_0000
  {
    assert Pow2(8) == 0x100;
    assert Pow2(16) == 0x1_0000;
  }

  lemma MaskMeans(pageMask: u32)
    ensures And(pageMask / 0x2000, 0xFFF) == pageMask / 0x2000 % 0x1000
  {
    FullWords();
    Powers();
    AndLow(pageMask / 0x2000, 12);
    var q := LowBitsRemain(pageMask / 0x2000, 12);
  }

  lemma FrameMeans(entryLo: u32)
    ensures And(entryLo / 0x40, 0xF_FFFF) == entryLo / 0x40 % 0x10_0000
  {
    FullWords();
    Powers();
    AndLow(entryLo / 0x40, 20);
    var q := LowBitsRemain(entryLo / 0x40, 20);
  }

  lemma Cleared(x: u32, mask: u32, k: nat)
    requires mask == Ones(k, 0) && k <= 12
    ensures And(x, Not(mask)) == x - LowBits(x, k)
  {
    FullWords();
    OnesSplit(32, k);
    AndHigh(x, 32, k);
  }

  /** Where the registers say that a pair of halves begins, in pages: with the low k bits cleared. */
  function FirstPage(entryHi: u32, k: nat): nat {
    2 * (entryHi / 0x2000 - LowBits(entryHi / 0x2000, k))
  }

  /** The physical address of page number n of a half: that of its frame, with the low k bits cleared. */
  function PageAddress(entryLo: u32, k: nat, n: nat): u32 {
    var frame := entryLo / 0x40 % 0x10_0000;
    (frame - LowBits(frame, k) + n) * 0x1000 % 0x1_0000_0000
  }

  /** The fields of an entry whose page mask is k ones. */
  ghost predicate FieldsSay(e: Entry, entryHi: u32, entryLo0: u32, entryLo1: u32, k: nat) {
    var f0, f1 := entryLo0 / 0x40 % 0x10_0000, entryLo1 / 0x40 % 0x10_0000;
    && e.mask == Pow2(k) - 1 == Ones(k, 0) && e.vpn2 == FirstPage(entryHi, k) * 0x1000
    && e.entryLo0 == entryLo0 && e.entryLo1 == entryLo1 && (e.scratch <==> entryLo0 >= 0x8000_0000)
    && e.pfn0 == (f0 - LowBits(f0, k)) * 0x1000 && e.pfn1 == (f1 - LowBits(f1, k)) * 0x1000
  }

  lemma FieldsMean(pageMask: u32, entryHi: u32, entryLo0: u32, entryLo1: u32, k: nat)
    requires k <= 12 && pageMask / 0x2000 % 0x1000 == Pow2(k) - 1
    ensures FieldsSay(FromRegisters(pageMask, entryHi, entryLo0, entryLo1), entryHi, entryLo0, entryLo1, k)
  {
    OnesPow(k);
    MaskMeans(pageMask);
    var mask := And(pageMask / 0x2000, 0xFFF);
    FrameMeans(entryLo0);
    FrameMeans(entryLo1);
    Cleared(entryHi / 0x2000, mask, k);
    Cleared(entryLo0 / 0x40 % 0x10_0000, mask, k);
    Cleared(entryLo1 / 0x40 % 0x10_0000, mask, k);
  }

  /** What the registers say about page p, for a page mask of k ones: a page of the even half leads to its
      page of EntryLo0's frame, one of the odd half to that of EntryLo1's, if the half is valid. */
  ghost predicate AsRegistersSay(pageMask: u32, entryHi: u32, entryLo0: u32, entryLo1: u32, pages: PageMap, k: nat, p: nat) {
    k <= 12 && pageMask / 0x2000 % 0x1000 == Pow2(k) - 1 ==>
      var first := FirstPage(entryHi, k);
      entryLo0 < 0x8000_0000 && first != 0x7_0000 ==>
        && (entryLo0 / 2 % 2 == 1 && first <= p < first + Pow2(k) ==>
             p in pages && pages[p] == Phys(PageAddress(entryLo0, k, p - first)))
        && (entryLo1 / 2 % 2 == 1 && first + Pow2(k) <= p < first + 2 * Pow2(k) ==>
             p in pages && pages[p] == Phys(PageAddress(entryLo1, k, p - first - Pow2(k))))
  }

  lemma HalfOf(e: Entry, k: nat, p: nat)
    requires Contiguous(e, k)
    ensures InEven(e, p) <==> Valid0(e) && Start(e) <= p < Start(e) + e.mask + 1
    ensures InOdd(e, p) <==> Valid1(e) && Start(e) + e.mask + 1 <= p < Start(e) + 2 * (e.mask + 1)
  {
    HalvesCover(e, k);
  }

  /** What a plain entry denotes, as its halves have it. */
  lemma PlainDenotes(e: Entry, p: nat)
    requires Plain(e)
    ensures InOdd(e, p) ==> Denotes(e, p) == Some(Phys(Frame(e.pfn1, p - Start(e) - e.mask - 1)))
    ensures InEven(e, p) && !InOdd(e, p) ==> Denotes(e, p) == Some(Phys(Frame(e.pfn0, p - Start(e))))
  {
  }

  lemma FrameIs(pfn: u32, frame: nat, n: nat)
    requires pfn == frame * 0x1000
    ensures Frame(pfn, n) == (frame + n) * 0x1000 % 0x1_0000_0000
  {
  }

  lemma EntryDenotes(e: Entry, k: nat, frame0: nat, frame1: nat, p: nat, d: Option<Target>)
    requires Contiguous(e, k) && Plain(e) && e.pfn0 == frame0 * 0x1000 && e.pfn1 == frame1 * 0x1000 && d == Denotes(e, p)
    ensures Valid0(e) && Start(e) <= p < Start(e) + e.mask + 1 ==>
              d == Some(Phys((frame0 + (p - Start(e))) * 0x1000 % 0x1_0000_0000))
    ensures Valid1(e) && Start(e) + e.mask + 1 <= p < Start(e) + 2 * (e.mask + 1) ==>
              d == Some(Phys((frame1 + (p - Start(e) - e.mask - 1)) * 0x1000 % 0x1_0000_0000))
  {
    HalfOf(e, k, p);
    PlainDenotes(e, p);
    if InOdd(e, p) {
      FrameIs(e.pfn1, frame1, p - Start(e) - e.mask - 1);
    } else if InEven(e, p) {
      FrameIs(e.pfn0, frame0, p - Start(e));
    }
  }

  lemma FieldsPlace(e: Entry, entryHi: u32, entryLo0: u32, entryLo1: u32, k: nat)
    requires FieldsSay(e, entryHi, entryLo0, entryLo1, k)
    ensures Start(e) == FirstPage(entryHi, k) && e.mask + 1 == Pow2(k)
    ensures Valid0(e) <==> entryLo0 / 2 % 2 == 1
    ensures Valid1(e) <==> entryLo1 / 2 % 2 == 1
    ensures Plain(e) <==> entryLo0 < 0x8000_0000 && FirstPage(entryHi, k) != 0x7_0000
  {
  }

  lemma HalfSays(entryLo: u32, k: nat, valid: bool, frame: nat, start: nat, size: nat, pages: PageMap, p: nat, d: Option<Target>)
    requires frame == entryLo / 0x40 % 0x10_0000 - LowBits(entryLo / 0x40 % 0x10_0000, k)
    requires d.Some? ==> Lookup(pages, p) == d
    requires valid && start <= p < start + size ==> d == Some(Phys((frame + (p - start)) * 0x1000 % 0x1_0000_0000))
    ensures valid && start <= p < start + size ==> p in pages && pages[p] == Phys(PageAddress(entryLo, k, p - start))
  {
  }

  lemma HalvesSay(pageMask: u32, entryHi: u32, entryLo0: u32, entryLo1: u32, frame0: nat, frame1: nat, start: nat, size: nat,
                  pages: PageMap, k: nat, p: nat, d: Option<Target>)
    requires frame0 == entryLo0 / 0x40 % 0x10_0000 - LowBits(entryLo0 / 0x40 % 0x10_0000, k)
    requires frame1 == entryLo1 / 0x40 % 0x10_0000 - LowBits(entryLo1 / 0x40 % 0x10_0000, k)
    requires start == FirstPage(entryHi, k) && size == Pow2(k) && (d.Some? ==> Lookup(pages, p) == d)
    requires entryLo0 / 2 % 2 == 1 && start <= p < start + size ==> d == Some(Phys((frame0 + (p - start)) * 0x1000 % 0x1_0000_0000))
    requires entryLo1 / 2 % 2 == 1 && start + size <= p < start + 2 * size ==>
               d == Some(Phys((frame1 + (p - start - size)) * 0x1000 % 0x1_0000_0000))
    ensures AsRegistersSay(pageMask, entryHi, entryLo0, entryLo1, pages, k, p)
  {
    HalfSays(entryLo0, k, entryLo0 / 2 % 2 == 1, frame0, start, size, pages, p, d);
    HalfSays(entryLo1, k, entryLo1 / 2 % 2 == 1, frame1, start + size, size, pages, p, d);
  }

  lemma EntrySays(e: Entry, pageMask: u32, entryHi: u32, entryLo0: u32, entryLo1: u32, pages: PageMap, k: nat, p: nat, d: Option<Target>)
    requires FieldsSay(e, entryHi, entryLo0, entryLo1, k) && Contiguous(e, k)
    requires d == Denotes(e, p) && (d.Some? ==> Lookup(pages, p) == d)
    ensures AsRegistersSay(pageMask, entryHi, entryLo0, entryLo1, pages, k, p)
  {
    var f0, f1 := entryLo0 / 0x40 % 0x10_0000, entryLo1 / 0x40 % 0x10_0000;
    var frame0, frame1 := f0 - LowBits(f0, k), f1 - LowBits(f1, k);
    FieldsPlace(e, entryHi, entryLo0, entryLo1, k);
    if Plain(e) {
      EntryDenotes(e, k, frame0, frame1, p, d);
      HalvesSay(pageMask, entryHi, entryLo0, entryLo1, frame0, frame1, Start(e), e.mask + 1, pages, k, p, d);
    }
  }

  lemma RegistersTranslate(pageMask: u32, entryHi: u32, entryLo0: u32, entryLo1: u32, e: Entry, pages: PageMap, k: nat, p: nat)
    requires e == FromRegisters(pageMask, entryHi, entryLo0, entryLo1) && (Denotes(e, p).Some? ==> Lookup(pages, p) == Denotes(e, p))
    ensures AsRegistersSay(pageMask, entryHi, entryLo0, entryLo1, pages, k, p)
  {
    if k <= 12 && pageMask / 0x2000 % 0x1000 == Pow2(k) - 1 {
      FieldsMean(pageMask, entryHi, entryLo0, entryLo1, k);
      RegistersAreAligned(pageMask, entryHi, entryLo0, entryLo1, k);
      EntrySays(e, pageMask, entryHi, entryLo0, entryLo1, pages, k, p, Denotes(e, p));
    }
  }

  // ---------------------------------------------------------------- the code

  class Cop0 {
    var index: u32
    var random: u32
    var pageMask: u32
    var entryHi: u32
    var entryLo0: u32
    var entryLo1: u32
    const tlb: array<Entry>
    /** What vtlb_VMap, vtlb_VMapBuffer and vtlb_VMapUnmap maintain. */
    var pages: PageMap

    ghost predicate Valid()
      reads this, tlb
    {
      tlb.Length == 48 && IsUnion(pages, tlb[..])
    }

    ghost function Now(): Mapping
      reads this, tlb
    {
      Mapping(tlb[..], pages)
    }

    constructor ()
      ensures Valid() && fresh(tlb) && Disjoint(tlb[..])
    {
      index, random, pageMask, entryHi, entryLo0, entryLo1 := 0, 0, 0, 0, 0, 0;
      tlb := new Entry[48](_ => NO_ENTRY);
      pages := map[];
      new;
      EmptyUnion(tlb[..]);
    }

    /** vtlb_VMapBuffer(vpn2, Scratch, 16K). */
    method MapScratchpad(e: Entry)
      requires e.scratch
      modifies this`pages
      ensures forall p: nat :: Lookup(pages, p) ==
                if InScratch(e, p) then Some(Scratchpad(Offset(e, p))) else Lookup(old(pages), p)
    {
      for n := 0 to 4
        invariant forall p: nat :: Lookup(pages, p) ==
                    if p < PAGES && 0 <= Offset(e, p) < n then Some(Scratchpad(Offset(e, p)))
                    else Lookup(old(pages), p)
      {
        var page := (Start(e) + n) % PAGES;
        WrapsBack(e, n, page);
        pages := pages[page := Scratchpad(n)];
      }
    }

    /** One half of MapTLB. */
    method MapHalf(e: Entry, pfn: u32, saddr: nat)
      modifies this`pages
      ensures forall p: nat :: Lookup(pages, p) ==
                if saddr <= p < saddr + e.mask + 1 && Matches(e, p) then Some(Phys(Frame(pfn, p - saddr)))
                else Lookup(old(pages), p)
    {
      var eaddr := saddr + e.mask + 1;
      for addr := saddr to eaddr
        invariant forall p: nat :: Lookup(pages, p) ==
                    if saddr <= p < addr && Matches(e, p) then Some(Phys(Frame(pfn, p - saddr)))
                    else Lookup(old(pages), p)
      {
        if Matches(e, addr) {
          pages := pages[addr := Phys(Frame(pfn, addr - saddr))];
        }
      }
    }

    /** One half of UnmapTLB. */
    method UnmapHalf(e: Entry, saddr: nat)
      modifies this`pages
      ensures forall p: nat :: Lookup(pages, p) ==
                if saddr <= p < saddr + e.mask + 1 && Matches(e, p) then None else Lookup(old(pages), p)
    {
      var eaddr := saddr + e.mask + 1;
      for addr := saddr to eaddr
        invariant forall p: nat :: Lookup(pages, p) ==
                    if saddr <= p < addr && Matches(e, p) then None else Lookup(old(pages), p)
      {
        if Matches(e, addr) {
          pages := pages - {addr};
        }
      }
    }

    method MapTLB(i: nat)
      requires i < tlb.Length
      modifies this`pages
      ensures forall p: nat :: Lookup(pages, p) ==
                if Denotes(tlb[i], p).Some? then Denotes(tlb[i], p) else Lookup(old(pages), p)
    {
      var e := tlb[i];
      if e.scratch {
        MapScratchpad(e);
      }
      assert forall p: nat :: Lookup(pages, p) ==
               if InScratch(e, p) then Some(Scratchpad(Offset(e, p))) else Lookup(old(pages), p);
      if e.vpn2 == SCRATCH_VPN2 {
        return;
      }
      MapHalves(e);
    }

    method MapHalves(e: Entry)
      modifies this`pages
      ensures forall p: nat :: Lookup(pages, p) ==
                if InOdd(e, p) then Some(Phys(Frame(e.pfn1, p - (Start(e) + e.mask + 1))))
                else if InEven(e, p) then Some(Phys(Frame(e.pfn0, p - Start(e))))
                else Lookup(old(pages), p)
    {
      if Valid0(e) {
        MapHalf(e, e.pfn0, e.vpn2 / 0x1000);
      }
      if Valid1(e) {
        MapHalf(e, e.pfn1, e.vpn2 / 0x1000 + e.mask + 1);
      }
    }

    method UnmapTLB(i: nat)
      requires i < tlb.Length
      modifies this`pages
      ensures forall p: nat :: Lookup(pages, p) == if Clears(tlb[i], p) then None else Lookup(old(pages), p)
    {
      var e := tlb[i];
      if e.scratch {
        for n := 0 to 4
          invariant forall p: nat :: Lookup(pages, p) ==
                      if p < PAGES && 0 <= Offset(e, p) < n then None else Lookup(old(pages), p)
        {
          var page := (Start(e) + n) % PAGES;
          WrapsBack(e, n, page);
          pages := pages - {page};
        }
        return;
      }
      if Valid0(e) {
        UnmapHalf(e, e.vpn2 / 0x1000);
      }
      if Valid1(e) {
        UnmapHalf(e, e.vpn2 / 0x1000 + e.mask + 1);
      }
    }

    /** The entry the CP0 registers describe. */
    function NewEntry(): Entry
      reads this
    {
      FromRegisters(pageMask, entryHi, entryLo0, entryLo1)
    }

    method WriteTLB(i: nat)
      requires i < tlb.Length
      modifies tlb, this`pages
      ensures tlb[..] == old(tlb[..])[i := NewEntry()]
      ensures forall p: nat :: Lookup(pages, p) ==
                if Denotes(NewEntry(), p).Some? then Denotes(NewEntry(), p) else Lookup(old(pages), p)
      ensures forall k: nat, p: nat :: AsRegistersSay(pageMask, entryHi, entryLo0, entryLo1, pages, k, p)
    {
      tlb[i] := NewEntry();
      MapTLB(i);
      forall k: nat, p: nat ensures AsRegistersSay(pageMask, entryHi, entryLo0, entryLo1, pages, k, p) {
        RegistersTranslate(pageMask, entryHi, entryLo0, entryLo1, NewEntry(), pages, k, p);
      }
    }

    /** The body that TLBWI and TLBWR share. */
    method Replace(j: nat)
      requires tlb.Length == 48 && j < 48
      modifies tlb, this`pages
      ensures Replaced(old(Now()), j, NewEntry(), Now())
      ensures old(Valid()) ==> (Valid() <==> Compatible(old(tlb[..]), j, NewEntry()))
      ensures old(Valid()) && old(Disjoint(tlb[..])) && Disjoint(tlb[..]) ==> Valid()
    {
      UnmapTLB(j);
      WriteTLB(j);
      if old(Valid()) {
        RewriteExact(old(pages), pages, old(tlb[..]), j, NewEntry());
        if old(Disjoint(tlb[..])) && Disjoint(tlb[..]) {
          DisjointIsCompatible(old(tlb[..]), j, NewEntry());
        }
      }
    }

    method TLBWI()
      requires tlb.Length == 48 && index % 0x40 < 48
      modifies tlb, this`pages
      ensures Replaced(old(Now()), index % 0x40, NewEntry(), Now())
      ensures old(Valid()) ==> (Valid() <==> Compatible(old(tlb[..]), index % 0x40, NewEntry()))
      ensures old(Valid()) && old(Disjoint(tlb[..])) && Disjoint(tlb[..]) ==> Valid()
    {
      Replace(index % 0x40);
    }

    method TLBWR()
      requires tlb.Length == 48 && random % 0x40 < 48
      modifies tlb, this`pages
      ensures Replaced(old(Now()), random % 0x40, NewEntry(), Now())
      ensures old(Valid()) ==> (Valid() <==> Compatible(old(tlb[..]), random % 0x40, NewEntry()))
      ensures old(Valid()) && old(Disjoint(tlb[..])) && Disjoint(tlb[..]) ==> Valid()
    {
      Replace(random % 0x40);
    }
  }
}
