/** The EE data cache of Cache.cpp: 64 sets of two ways over host memory, written back on eviction.

    Tags hold host addresses, so translation happens before the lookup; it keeps the low twelve
    bits, so the set of a virtual address is that of the host address behind it.  The first module
    gives the state and what each operation does to it; the second proves that the cache stands in for
    plain memory; the third is the code, on arrays. */
module CacheState {

  type u8 = x: int | 0 <= x < 0x100
  type u32 = x: int | 0 <= x < 0x1_0000_0000

  type Bytes64 = b: seq<u8> | |b| == 64 witness seq(64, _ => 0)

  /** CacheTag: the host page (the address without its flags, over 4096) and the flag bits. */
  datatype Tag = Tag(page: nat, dirty: bool, valid: bool, lrf: bool, lock: bool) {
    predicate Matches(p: nat) { valid && page == p }

    predicate IsDirtyAndValid() { dirty && valid }
  }

  /** CacheData and its tag. */
  datatype Line = Line(tag: Tag, bytes: Bytes64)

  /** The 128 lines, way w of set i at 2 * i + w, and host memory. */
  datatype State = State(lines: seq<Line>, host: seq<u8>)

  function Zeros(): Bytes64 {
    seq(64, _ => 0)
  }

  function SetOf(a: nat): nat { a / 64 % 64 }

  function PageOf(a: nat): nat { a / 4096 }

  function LineBase(page: nat, set_: nat): nat { page * 4096 + set_ * 64 }

  /** CacheLine::addr. */
  function BaseAt(s: State, i: nat): nat
    requires i < |s.lines|
  {
    LineBase(s.lines[i].tag.page, i / 2)
  }

  /** Bytes replaced in place. */
  function Splice(m: seq<u8>, at: nat, bytes: seq<u8>): (r: seq<u8>)
    requires at + |bytes| <= |m|
    ensures |r| == |m|
  {
    m[..at] + bytes + m[at + |bytes|..]
  }

  // ---------------------------------------------------------------- invariant and view

  /** Each valid line stands for memory that exists, and agrees with it unless dirty.  Page 0, the null
      address that an empty tag holds, is never memory. */
  ghost predicate LineOk(s: State, i: nat)
    requires i < |s.lines|
  {
    s.lines[i].tag.valid ==>
      && s.lines[i].tag.page > 0 && BaseAt(s, i) + 64 <= |s.host|
      && (!s.lines[i].tag.dirty ==> s.lines[i].bytes == s.host[BaseAt(s, i)..BaseAt(s, i) + 64])
  }

  /** No set holds the same page in both ways. */
  ghost predicate NoTwins(s: State, i: nat)
    requires |s.lines| == 128 && i < 64
  {
    s.lines[2 * i].tag.valid && s.lines[2 * i + 1].tag.valid ==> s.lines[2 * i].tag.page != s.lines[2 * i + 1].tag.page
  }

  ghost predicate Inv(s: State) {
    && |s.lines| == 128 && |s.host| % 4096 == 0
    && (forall i | 0 <= i < 128 :: LineOk(s, i))
    && (forall i | 0 <= i < 64 :: NoTwins(s, i))
  }

  /** What a program sees at host address a: the cached byte on a hit, else the byte in memory. */
  function ByteAt(s: State, a: nat): u8
    requires |s.lines| == 128 && a < |s.host|
  {
    if s.lines[2 * SetOf(a)].tag.Matches(PageOf(a)) then s.lines[2 * SetOf(a)].bytes[a % 64]
    else if s.lines[2 * SetOf(a) + 1].tag.Matches(PageOf(a)) then s.lines[2 * SetOf(a) + 1].bytes[a % 64]
    else s.host[a]
  }

  function View(s: State): (v: seq<u8>)
    requires |s.lines| == 128
    ensures |v| == |s.host|
  {
    seq(|s.host|, a requires 0 <= a < |s.host| => ByteAt(s, a))
  }

  // ---------------------------------------------------------------- operations

  function Clean(l: Line): Line { l.(tag := l.tag.(dirty := false)) }

  /** writeBackIfNeeded. */
  function WriteBack(s: State, i: nat): State
    requires i < |s.lines| && LineOk(s, i)
  {
    if s.lines[i].tag.IsDirtyAndValid() then
      State(s.lines[i := Clean(s.lines[i])], Splice(s.host, BaseAt(s, i), s.lines[i].bytes))
    else s
  }

  /** CacheLine::load. */
  function Load(s: State, i: nat, page: nat): State
    requires i < |s.lines| && LineBase(page, i / 2) + 64 <= |s.host|
  {
    s.(lines := s.lines[i := Line(s.lines[i].tag.(page := page, valid := true, dirty := false),
                                  s.host[LineBase(page, i / 2)..LineBase(page, i / 2) + 64])])
  }

  function ToggleLrf(s: State, i: nat): State
    requires i < |s.lines|
  {
    var l := s.lines[i];
    s.(lines := s.lines[i := l.(tag := l.tag.(lrf := !l.tag.lrf))])
  }

  /** CacheLine::clear. */
  function Clear(s: State, i: nat): State
    requires i < |s.lines|
  {
    State(s.lines[i := Line(Tag(0, false, false, s.lines[i].tag.lrf, false), Zeros())], s.host)
  }

  /** findInCache: the way of set_ that holds page, or 2. */
  function Find(s: State, set_: nat, page: nat): nat
    requires |s.lines| == 128 && set_ < 64
  {
    if s.lines[2 * set_].tag.Matches(page) then 0 else if s.lines[2 * set_ + 1].tag.Matches(page) then 1 else 2
  }

  /** The way the next fill of a set will take. */
  function Victim(s: State, set_: nat): nat
    requires |s.lines| == 128 && set_ < 64
  {
    if s.lines[2 * set_].tag.lrf != s.lines[2 * set_ + 1].tag.lrf then 1 else 0
  }

  /** The line getFreeCache picks for host address a. */
  function Pick(s: State, a: nat): (i: nat)
    requires |s.lines| == 128
    ensures i < 128 && i / 2 == SetOf(a)
  {
    var way := Find(s, SetOf(a), PageOf(a));
    2 * SetOf(a) + if way < 2 then way else Victim(s, SetOf(a))
  }

  predicate Misses(s: State, a: nat)
    requires |s.lines| == 128
  {
    Find(s, SetOf(a), PageOf(a)) == 2
  }

  /** The miss of getFreeCache: write back, load, toggle. */
  function Fill(s: State, i: nat, page: nat): State
    requires i < |s.lines| && LineOk(s, i) && LineBase(page, i / 2) + 64 <= |s.host|
  {
    ToggleLrf(Load(WriteBack(s, i), i, page), i)
  }

  /** getFreeCache. */
  function Access(s: State, a: nat): State
    requires Inv(s) && a < |s.host|
  {
    if Misses(s, a) then
      LineInside(a, |s.host|);
      Fill(s, Pick(s, a), PageOf(a))
    else s
  }

  /** An address is its page, its set and its place in the line. */
  lemma Decompose(a: nat)
    ensures a == LineBase(PageOf(a), SetOf(a)) + a % 64
  {
  }

  /** And those of a line are no others. */
  lemma InLine(a: nat, page: nat, set_: nat)
    requires set_ < 64 && LineBase(page, set_) <= a < LineBase(page, set_) + 64
    ensures PageOf(a) == page && SetOf(a) == set_
  {
    assert a / 64 == 64 * page + set_;
  }

  /** Memory of whole pages holds the whole line around an address. */
  lemma LineInside(a: nat, size: nat)
    requires a < size && size % 4096 == 0
    ensures LineBase(PageOf(a), SetOf(a)) <= a < LineBase(PageOf(a), SetOf(a)) + 64 <= size
  {
    Decompose(a);
    var q := size / 4096;
    assert size == 4096 * q && PageOf(a) < q;
  }

  /** The bytes a write puts into the line it finds, which becomes dirty. */
  function Store(s: State, i: nat, offset: nat, bytes: seq<u8>): State
    requires i < |s.lines| && offset + |bytes| <= |s.lines[i].bytes|
  {
    var l := s.lines[i];
    s.(lines := s.lines[i := Line(l.tag.(dirty := true), Splice(l.bytes, offset, bytes))])
  }

  // ---------------------------------------------------------------- the instructions

  /** A program's accesses and the CACHE instruction.  Remap is a change of the page map, which
      does not touch the cache. */
  datatype Op =
    | Read(mem: nat, size: nat)
    | Write(mem: nat, bytes: seq<u8>)
    | DHIN(mem: nat)
    | DHWBIN(mem: nat)
    | DHWOIN(mem: nat)
    | DXIN(addr: nat)
    | DXLTG(addr: nat)
    | DXWBIN(addr: nat)
    | Remap(vpage: nat, page: nat)

  type PageTable = map<nat, nat>

  predicate AccessSize(n: nat) { n == 1 || n == 2 || n == 4 || n == 8 || n == 16 }

  /** The page is mapped, to memory there is; the source asserts that it is not a handler. */
  predicate Mapped(vmap: PageTable, s: State, mem: nat) {
    PageOf(mem) in vmap && vmap[PageOf(mem)] > 0 && (vmap[PageOf(mem)] + 1) * 4096 <= |s.host|
  }

  /** The host address behind a virtual one. */
  function Translate(vmap: PageTable, mem: nat): nat
    requires PageOf(mem) in vmap
  {
    vmap[PageOf(mem)] * 4096 + mem % 4096
  }

  predicate Enabled(vmap: PageTable, s: State, op: Op) {
    match op
    case Read(mem, size) => Mapped(vmap, s, mem) && AccessSize(size)
    case Write(mem, bytes) => Mapped(vmap, s, mem) && AccessSize(|bytes|)
    case DHIN(mem) => Mapped(vmap, s, mem)
    case DHWBIN(mem) => Mapped(vmap, s, mem)
    case DHWOIN(mem) => Mapped(vmap, s, mem)
    case _ => true
  }

  /** a & (n - 1), for the access sizes. */
  function LowBits(a: nat, n: nat): nat
    requires AccessSize(n)
  {
    if n == 1 then 0 else if n == 2 then a % 2 else if n == 4 then a % 4 else if n == 8 then a % 8 else a % 16
  }

  /** Where an access of n bytes starts: mem & ~(n - 1). */
  function AlignDown(a: nat, n: nat): nat
    requires AccessSize(n)
  {
    a - LowBits(a, n)
  }

  /** That is the multiple of n at or below the address. */
  lemma AlignsDown(a: nat, n: nat)
    requires AccessSize(n)
    ensures AlignDown(a, n) == a - a % n
    ensures AlignDown(a, n) % n == 0 && AlignDown(a, n) <= a < AlignDown(a, n) + n
  {
    if n == 1 {} else if n == 2 {} else if n == 4 {} else if n == 8 {} else {}
  }

  /** The line an index operation names. */
  function IndexLine(addr: nat): (i: nat)
    ensures i < 128
  {
    2 * SetOf(addr) + addr % 2
  }

  /** A hit operation that writes back or clears, or nothing on a miss. */
  function HitOp(s: State, a: nat, writeBack: bool, clear: bool): State
    requires Inv(s)
  {
    if Misses(s, a) then s else LineOp(s, Pick(s, a), writeBack, clear)
  }

  function LineOp(s: State, i: nat, writeBack: bool, clear: bool): State
    requires Inv(s) && i < 128 && LineOk(s, i)
  {
    if writeBack && clear then Clear(WriteBack(s, i), i)
    else if writeBack then WriteBack(s, i)
    else if clear then Clear(s, i)
    else s
  }

  /** The new state, and the bytes a read returns. */
  function Step(vmap: PageTable, s: State, op: Op): (State, seq<u8>)
    requires Inv(s) && Enabled(vmap, s, op)
  {
    match op
    case Read(mem, size) =>
      AccessFits(Translate(vmap, mem), size);
      ReadAt(s, Translate(vmap, mem), size)
    case Write(mem, bytes) =>
      AccessFits(Translate(vmap, mem), |bytes|);
      (WriteAt(s, Translate(vmap, mem), bytes), [])
    case DHIN(mem) => (HitOp(s, Translate(vmap, mem), false, true), [])
    case DHWBIN(mem) => (HitOp(s, Translate(vmap, mem), true, true), [])
    case DHWOIN(mem) => (HitOp(s, Translate(vmap, mem), true, false), [])
    case DXIN(addr) => (LineOp(s, IndexLine(addr), false, true), [])
    case DXLTG(addr) => (LineOp(s, IndexLine(addr), true, false), [])
    case DXWBIN(addr) => (LineOp(s, IndexLine(addr), true, true), [])
    case Remap(_, _) => (s, [])
  }

  function ReadAt(s: State, a: nat, n: nat): (State, seq<u8>)
    requires Inv(s) && a < |s.host| && AccessSize(n) && AlignDown(a, n) % 64 + n <= 64
  {
    (Access(s, a), Access(s, a).lines[Pick(s, a)].bytes[AlignDown(a, n) % 64..AlignDown(a, n) % 64 + n])
  }

  function WriteAt(s: State, a: nat, bytes: seq<u8>): State
    requires Inv(s) && a < |s.host| && AccessSize(|bytes|) && AlignDown(a, |bytes|) % 64 + |bytes| <= 64
  {
    Store(Access(s, a), Pick(s, a), AlignDown(a, |bytes|) % 64, bytes)
  }

  /** An aligned access stays within the line its address is in. */
  lemma AccessFits(a: nat, n: nat)
    requires AccessSize(n)
    ensures AlignDown(a, n) % 64 + n <= 64
    ensures LineBase(PageOf(a), SetOf(a)) + AlignDown(a, n) % 64 == AlignDown(a, n)
  {
    Decompose(a);
    AlignSplit(64 * PageOf(a) + SetOf(a), a % 64, n);
  }

  lemma AlignSplit(line: nat, o: nat, n: nat)
    requires AccessSize(n) && o < 64
    ensures AlignDown(64 * line + o, n) == 64 * line + AlignDown(o, n)
    ensures AlignDown(o, n) + n <= 64 && AlignDown(64 * line + o, n) % 64 == AlignDown(o, n)
  {
    LowBitsSame(line, o, n);
    Low64(line, o - LowBits(o, n));
  }

  lemma LowBitsSame(line: nat, o: nat, n: nat)
    requires AccessSize(n) && o < 64
    ensures LowBits(64 * line + o, n) == LowBits(o, n) <= o && o - LowBits(o, n) + n <= 64
  {
    if n == 2 { Low2(line, o); } else if n == 4 { Low4(line, o); } else if n == 8 { Low8(line, o); } else if n == 16 { Low16(line, o); }
  }

  lemma Low64(line: nat, o: nat)
    requires o < 64
    ensures (64 * line + o) % 64 == o
  {
  }

  lemma Low2(line: nat, o: nat)
    requires o < 64
    ensures (64 * line + o) % 2 == o % 2 && o - o % 2 + 2 <= 64
  {
  }

  lemma Low4(line: nat, o: nat)
    requires o < 64
    ensures (64 * line + o) % 4 == o % 4 && o - o % 4 + 4 <= 64
  {
  }

  lemma Low8(line: nat, o: nat)
    requires o < 64
    ensures (64 * line + o) % 8 == o % 8 && o - o % 8 + 8 <= 64
  {
  }

  lemma Low16(line: nat, o: nat)
    requires o < 64
    ensures (64 * line + o) % 16 == o % 16 && o - o % 16 + 16 <= 64
  {
  }

  /** CacheTag::flags. */
  function Flags(t: Tag): u32 {
    (if t.dirty then 0x40 else 0) + (if t.valid then 0x20 else 0) + (if t.lrf then 0x10 else 0) + (if t.lock then 0x8 else 0)
  }

  /** CacheTag::flags undone, but for the unused bits. */
  function WithFlags(t: Tag, x: u32): Tag {
    t.(dirty := x / 0x40 % 2 == 1, valid := x / 0x20 % 2 == 1, lrf := x / 0x10 % 2 == 1, lock := x / 0x8 % 2 == 1)
  }

  /** DXSTG replaces the flags of a line. */
  function StoreTag(s: State, i: nat, x: u32): State
    requires i < |s.lines|
  {
    s.(lines := s.lines[i := s.lines[i].(tag := WithFlags(s.lines[i].tag, x))])
  }

  /** The word at an address of a line: addr & 0x3c. */
  function WordAt(addr: nat): (o: nat)
    ensures o + 4 <= 64
  {
    addr % 64 / 4 * 4
  }

  /** A u32 in memory, and back. */
  function Bytes(x: u32): (b: seq<u8>)
    ensures |b| == 4
  {
    [x % 0x100, x / 0x100 % 0x100, x / 0x1_0000 % 0x100, x / 0x100_0000]
  }

  function Word(b: seq<u8>): u32
    requires |b| == 4
  {
    var b0: int, b1: int, b2: int, b3: int := b[0], b[1], b[2], b[3];
    b0 + 0x100 * b1 + 0x1_0000 * b2 + 0x100_0000 * b3
  }

  /** DXSDT puts data into a line without marking it dirty. */
  function StoreData(s: State, i: nat, offset: nat, word: seq<u8>): State
    requires i < |s.lines| && offset + |word| <= 64
  {
    State(s.lines[i := Line(s.lines[i].tag, Splice(s.lines[i].bytes, offset, word))], s.host)
  }

  lemma PlaceOf(page: nat, x: nat, n: nat)
    requires x < 4096 && AccessSize(n)
    ensures SetOf(page * 4096 + x) == x / 64 && AlignDown(page * 4096 + x, n) % 64 == AlignDown(x % 64, n)
  {
    var line := 64 * page + x / 64;
    assert page * 4096 + x == 64 * line + x % 64;
    AlignSplit(line, x % 64, n);
    LineOf(line, x % 64);
    assert line % 64 == x / 64;
  }

  lemma LineOf(line: nat, o: nat)
    requires o < 64
    ensures (64 * line + o) / 64 == line
  {
  }

  /** Translation keeps the low twelve bits, so an address has the set, and the place in its line, of the
      host address behind it. */
  lemma SamePlace(vmap: PageTable, mem: nat, n: nat)
    requires PageOf(mem) in vmap && AccessSize(n)
    ensures SetOf(mem) == SetOf(Translate(vmap, mem))
    ensures AlignDown(mem, n) % 64 == AlignDown(Translate(vmap, mem), n) % 64
  {
    PlaceOf(PageOf(mem), mem % 4096, n);
    PlaceOf(vmap[PageOf(mem)], mem % 4096, n);
  }

  function Remapped(vmap: PageTable, op: Op): PageTable {
    if op.Remap? then vmap[op.vpage := op.page] else vmap
  }
}

module CacheRefinement {
  import opened CacheState

  // ---------------------------------------------------------------- which line holds a byte

  predicate Covers(s: State, i: nat, a: nat)
    requires i < |s.lines|
  {
    s.lines[i].tag.valid && BaseAt(s, i) <= a < BaseAt(s, i) + 64
  }

  /** Two lines of memory are the same or apart. */
  lemma LinesApart(p: nat, x: nat, q: nat, y: nat)
    requires x < 64 && y < 64 && (p != q || x != y)
    ensures LineBase(p, x) + 64 <= LineBase(q, y) || LineBase(q, y) + 64 <= LineBase(p, x)
  {
  }

  lemma OnlyOneCovers(s: State, i: nat, k: nat, a: nat)
    requires Inv(s) && i < 128 && k < 128 && Covers(s, i, a) && Covers(s, k, a)
    ensures i == k
  {
    InLine(a, s.lines[i].tag.page, i / 2);
    InLine(a, s.lines[k].tag.page, k / 2);
    assert NoTwins(s, i / 2);
  }

  lemma ByteInLine(s: State, i: nat, a: nat)
    requires Inv(s) && i < 128 && a < |s.host| && Covers(s, i, a)
    ensures ByteAt(s, a) == s.lines[i].bytes[a - BaseAt(s, i)]
  {
    InLine(a, s.lines[i].tag.page, i / 2);
    Decompose(a);
    assert NoTwins(s, i / 2);
  }

  lemma ByteInMemory(s: State, a: nat)
    requires Inv(s) && a < |s.host| && forall i | 0 <= i < 128 :: !Covers(s, i, a)
    ensures ByteAt(s, a) == s.host[a]
  {
    Decompose(a);
    assert !Covers(s, 2 * SetOf(a), a) && !Covers(s, 2 * SetOf(a) + 1, a);
  }

  /** The byte at a, from the lines of t: what covers it, or memory. */
  lemma ByteIs(t: State, a: nat, b: u8)
    requires Inv(t) && a < |t.host|
    requires forall i | 0 <= i < 128 :: Covers(t, i, a) ==> t.lines[i].bytes[a - BaseAt(t, i)] == b
    requires (forall i | 0 <= i < 128 :: !Covers(t, i, a)) ==> t.host[a] == b
    ensures ByteAt(t, a) == b
  {
    if i :| 0 <= i < 128 && Covers(t, i, a) {
      ByteInLine(t, i, a);
    } else {
      ByteInMemory(t, a);
    }
  }

  // ---------------------------------------------------------------- write-back, fill, clear

  lemma SpliceApart(m: seq<u8>, at: nat, bytes: seq<u8>, from: nat)
    requires at + |bytes| <= |m| && from + 64 <= |m| && (from + 64 <= at || at + |bytes| <= from)
    ensures Splice(m, at, bytes)[from..from + 64] == m[from..from + 64]
  {
  }

  lemma SpliceSame(m: seq<u8>, at: nat, bytes: seq<u8>)
    requires at + |bytes| <= |m|
    ensures Splice(m, at, bytes)[at..at + |bytes|] == bytes
  {
  }

  lemma WriteBackLineOk(s: State, i: nat, k: nat)
    requires Inv(s) && i < 128 && k < 128 && s.lines[i].tag.IsDirtyAndValid() && LineOk(s, i) && LineOk(s, k)
    ensures LineOk(WriteBack(s, i), k)
  {
    if k == i {
      SpliceSame(s.host, BaseAt(s, i), s.lines[i].bytes);
    } else if s.lines[k].tag.valid {
      assert NoTwins(s, i / 2);
      LinesApart(s.lines[i].tag.page, i / 2, s.lines[k].tag.page, k / 2);
      SpliceApart(s.host, BaseAt(s, i), s.lines[i].bytes, BaseAt(s, k));
    }
  }

  lemma WriteBackInv(s: State, i: nat)
    requires Inv(s) && i < 128
    ensures Inv(WriteBack(s, i)) && !WriteBack(s, i).lines[i].tag.IsDirtyAndValid()
  {
    var t := WriteBack(s, i);
    if s.lines[i].tag.IsDirtyAndValid() {
      forall k | 0 <= k < 128 ensures LineOk(t, k) {
        assert LineOk(s, i) && LineOk(s, k);
        WriteBackLineOk(s, i, k);
      }
      forall k | 0 <= k < 64 ensures NoTwins(t, k) {
        assert NoTwins(s, k);
      }
    }
  }

  /** Writing a line back changes no byte of the view. */
  lemma WriteBackView(s: State, i: nat)
    requires Inv(s) && i < 128
    ensures View(WriteBack(s, i)) == View(s)
  {
    var t := WriteBack(s, i);
    WriteBackInv(s, i);
    assert LineOk(s, i);
    forall a | 0 <= a < |s.host| ensures ByteAt(t, a) == ByteAt(s, a) {
      assert forall k | 0 <= k < 128 :: Covers(t, k, a) == Covers(s, k, a);
      if k :| 0 <= k < 128 && Covers(s, k, a) {
        ByteInLine(s, k, a);
        ByteInLine(t, k, a);
      } else {
        ByteInMemory(s, a);
        ByteInMemory(t, a);
        assert !Covers(s, i, a);
      }
    }
  }

  /** A line that is not dirty may be replaced by any clean one that agrees with memory and is
      not in the set already, or by an invalid one: the view stays. */
  lemma ReplaceClean(s: State, i: nat, l: Line)
    requires Inv(s) && i < 128 && !s.lines[i].tag.IsDirtyAndValid()
    requires CleanLine(s, i, l)
    ensures var t := State(s.lines[i := l], s.host);
            Inv(t) && View(t) == View(s)
  {
    var t := State(s.lines[i := l], s.host);
    ReplaceInv(s, i, l);
    assert LineOk(s, i) && LineOk(t, i);
    forall a | 0 <= a < |s.host| ensures ByteAt(t, a) == ByteAt(s, a) {
      ReplacedByte(s, t, i, a);
    }
  }

  ghost predicate CleanLine(s: State, i: nat, l: Line)
    requires |s.lines| == 128 && i < 128
  {
    l.tag.valid ==>
      var base := LineBase(l.tag.page, i / 2);
      !l.tag.dirty && l.tag.page > 0 && base + 64 <= |s.host| && l.bytes == s.host[base..base + 64]
      && !s.lines[if i % 2 == 0 then i + 1 else i - 1].tag.Matches(l.tag.page)
  }

  lemma ReplaceInv(s: State, i: nat, l: Line)
    requires Inv(s) && i < 128 && CleanLine(s, i, l)
    ensures Inv(State(s.lines[i := l], s.host))
  {
    var t := State(s.lines[i := l], s.host);
    forall k | 0 <= k < 128 ensures LineOk(t, k) {
      assert LineOk(s, k);
    }
    forall k | 0 <= k < 64 ensures NoTwins(t, k) {
      assert NoTwins(s, k);
    }
  }

  lemma ReplacedByte(s: State, t: State, i: nat, a: nat)
    requires Inv(s) && Inv(t) && i < 128 && a < |s.host| && t.host == s.host
    requires forall k | 0 <= k < 128 && k != i :: t.lines[k] == s.lines[k]
    requires Covers(s, i, a) ==> s.lines[i].bytes[a - BaseAt(s, i)] == s.host[a]
    requires Covers(t, i, a) ==> t.lines[i].bytes[a - BaseAt(t, i)] == s.host[a]
    ensures ByteAt(t, a) == ByteAt(s, a)
  {
    if k :| 0 <= k < 128 && k != i && Covers(s, k, a) {
      ByteInLine(s, k, a);
      ByteInLine(t, k, a);
    } else {
      ByteIs(s, a, s.host[a]);
      ByteIs(t, a, s.host[a]);
    }
  }

  // ---------------------------------------------------------------- accesses

  /** A clean line may be refilled with a page its set does not hold. */
  lemma RefillOk(u: State, i: nat, page: nat)
    requires Inv(u) && i < 128 && page > 0 && !u.lines[i].tag.IsDirtyAndValid() && LineBase(page, i / 2) + 64 <= |u.host|
    requires !u.lines[2 * (i / 2)].tag.Matches(page) && !u.lines[2 * (i / 2) + 1].tag.Matches(page)
    ensures var t := ToggleLrf(Load(u, i, page), i);
            Inv(t) && View(t) == View(u) && t.lines[i].tag.Matches(page)
  {
    var t := ToggleLrf(Load(u, i, page), i);
    assert t == State(u.lines[i := t.lines[i]], u.host);
    ReplaceClean(u, i, t.lines[i]);
  }

  lemma WriteBackTags(s: State, i: nat)
    requires Inv(s) && i < 128 && LineOk(s, i)
    ensures |WriteBack(s, i).lines| == 128 && |WriteBack(s, i).host| == |s.host|
    ensures forall k, p: nat | 0 <= k < 128 :: WriteBack(s, i).lines[k].tag.Matches(p) == s.lines[k].tag.Matches(p)
  {
  }

  /** What getFreeCache guarantees: the view stays, and the line picked holds the address. */
  lemma AccessOk(s: State, a: nat)
    requires Inv(s) && 4096 <= a < |s.host|
    ensures Inv(Access(s, a)) && View(Access(s, a)) == View(s)
    ensures Access(s, a).lines[Pick(s, a)].tag.Matches(PageOf(a))
  {
    if Misses(s, a) {
      var i := Pick(s, a);
      assert LineOk(s, i);
      WriteBackInv(s, i);
      WriteBackView(s, i);
      WriteBackTags(s, i);
      LineInside(a, |s.host|);
      RefillOk(WriteBack(s, i), i, PageOf(a));
    }
  }

  /** A valid line is its stretch of the view. */
  lemma LineIsView(s: State, i: nat)
    requires Inv(s) && i < 128 && s.lines[i].tag.valid
    ensures BaseAt(s, i) + 64 <= |s.host|
    ensures s.lines[i].bytes == View(s)[BaseAt(s, i)..BaseAt(s, i) + 64]
  {
    assert LineOk(s, i);
    var base := BaseAt(s, i);
    forall a | base <= a < base + 64 ensures View(s)[a] == s.lines[i].bytes[a - base] {
      ByteInLine(s, i, a);
    }
  }

  lemma SubSlice(v: seq<u8>, base: nat, o: nat, n: nat)
    requires o + n <= 64 && base + 64 <= |v|
    ensures v[base..base + 64][o..o + n] == v[base + o..base + o + n]
  {
    var x, y := v[base..base + 64][o..o + n], v[base + o..base + o + n];
    assert forall k | 0 <= k < n :: x[k] == y[k];
  }

  lemma ReadAligned(s: State, a: nat, n: nat)
    requires Inv(s) && 4096 <= a < |s.host| && AccessSize(n)
    ensures AlignDown(a, n) % 64 + n <= 64 && AlignDown(a, n) + n <= |s.host|
    ensures ReadAt(s, a, n).1 == View(s)[AlignDown(a, n)..AlignDown(a, n) + n]
  {
    AccessFits(a, n);
    AccessOk(s, a);
    LineInside(a, |s.host|);
    LineSlice(Access(s, a), Pick(s, a), LineBase(PageOf(a), SetOf(a)), AlignDown(a, n) % 64, n);
  }

  lemma LineSlice(t: State, i: nat, base: nat, o: nat, n: nat)
    requires Inv(t) && i < 128 && t.lines[i].tag.valid && o + n <= 64 && base == BaseAt(t, i)
    ensures base + 64 <= |t.host| && t.lines[i].bytes[o..o + n] == View(t)[base + o..base + o + n]
  {
    LineIsView(t, i);
    SubSlice(View(t), base, o, n);
  }

  /** A read returns the bytes of the view at its aligned address. */
  lemma ReadIsFlat(s: State, a: nat, n: nat)
    requires Inv(s) && 4096 <= a < |s.host| && AccessSize(n)
    ensures AlignDown(a, n) % 64 + n <= 64 && AlignDown(a, n) + n <= |s.host|
    ensures Inv(ReadAt(s, a, n).0) && View(ReadAt(s, a, n).0) == View(s)
    ensures AlignDown(a, n) == a - a % n
    ensures ReadAt(s, a, n).1 == View(s)[a - a % n..a - a % n + n]
  {
    AlignsDown(a, n);
    AccessOk(s, a);
    ReadAligned(s, a, n);
  }

  lemma StoreInv(s: State, i: nat, offset: nat, bytes: seq<u8>)
    requires Inv(s) && i < 128 && s.lines[i].tag.valid && offset + |bytes| <= 64
    ensures Inv(Store(s, i, offset, bytes))
  {
    var t := Store(s, i, offset, bytes);
    forall k | 0 <= k < 128 ensures LineOk(t, k) {
      assert LineOk(s, k);
    }
    forall k | 0 <= k < 64 ensures NoTwins(t, k) {
      assert NoTwins(s, k);
    }
  }

  lemma StoreView(s: State, i: nat, offset: nat, bytes: seq<u8>)
    requires Inv(s) && i < 128 && s.lines[i].tag.valid && offset + |bytes| <= 64
    ensures BaseAt(s, i) + 64 <= |s.host|
    ensures View(Store(s, i, offset, bytes)) == Splice(View(s), BaseAt(s, i) + offset, bytes)
  {
    var t, at := Store(s, i, offset, bytes), BaseAt(s, i) + offset;
    assert LineOk(s, i);
    StoreInv(s, i, offset, bytes);
    var v := View(t);
    forall a | 0 <= a < |s.host| ensures v[a] == if at <= a < at + |bytes| then bytes[a - at] else View(s)[a] {
      StoreByte(s, i, offset, bytes, a);
    }
    SpliceIs(View(s), at, bytes, v);
  }

  lemma StoreByte(s: State, i: nat, offset: nat, bytes: seq<u8>, a: nat)
    requires Inv(s) && i < 128 && s.lines[i].tag.valid && offset + |bytes| <= 64 && a < |s.host|
    requires Inv(Store(s, i, offset, bytes))
    ensures var at := BaseAt(s, i) + offset;
            ByteAt(Store(s, i, offset, bytes), a) == if at <= a < at + |bytes| then bytes[a - at] else ByteAt(s, a)
  {
    var t := Store(s, i, offset, bytes);
    if Covers(s, i, a) {
      ByteInLine(s, i, a);
      ByteInLine(t, i, a);
    } else {
      StoreElsewhere(s, t, i, a);
    }
  }

  /** The bytes of a splice. */
  lemma SpliceIs(m: seq<u8>, at: nat, bytes: seq<u8>, r: seq<u8>)
    requires at + |bytes| <= |m| == |r|
    requires forall a | 0 <= a < |m| :: r[a] == if at <= a < at + |bytes| then bytes[a - at] else m[a]
    ensures r == Splice(m, at, bytes)
  {
  }

  /** A byte outside line i does not depend on it. */
  lemma StoreElsewhere(s: State, t: State, i: nat, a: nat)
    requires Inv(s) && Inv(t) && i < 128 && a < |s.host| && t.host == s.host
    requires forall k | 0 <= k < 128 && k != i :: t.lines[k] == s.lines[k]
    requires !Covers(s, i, a) && !Covers(t, i, a)
    ensures ByteAt(t, a) == ByteAt(s, a)
  {
    ReplacedByte(s, t, i, a);
  }

  /** A write changes the view at exactly its aligned bytes. */
  lemma WriteIsFlat(s: State, a: nat, bytes: seq<u8>)
    requires Inv(s) && 4096 <= a < |s.host| && AccessSize(|bytes|)
    ensures AlignDown(a, |bytes|) % 64 + |bytes| <= 64 && AlignDown(a, |bytes|) + |bytes| <= |s.host|
    ensures Inv(WriteAt(s, a, bytes))
    ensures AlignDown(a, |bytes|) == a - a % |bytes|
    ensures View(WriteAt(s, a, bytes)) == Splice(View(s), a - a % |bytes|, bytes)
  {
    AlignsDown(a, |bytes|);
    AccessFits(a, |bytes|);
    AccessOk(s, a);
    LineInside(a, |s.host|);
    var t, i := Access(s, a), Pick(s, a);
    StoreInv(t, i, AlignDown(a, |bytes|) % 64, bytes);
    StoreView(t, i, AlignDown(a, |bytes|) % 64, bytes);
  }

  // ---------------------------------------------------------------- maintenance

  /** DHWBIN, DHWOIN, DXWBIN and DXLTG keep the view and leave memory equal to it on the line. */
  lemma WriteBackOpOk(s: State, i: nat, clear: bool)
    requires Inv(s) && i < 128 && LineOk(s, i)
    ensures var t := LineOp(s, i, true, clear);
            && Inv(t) && View(t) == View(s)
            && (s.lines[i].tag.valid ==>
                 BaseAt(s, i) + 64 <= |t.host|
                 && t.host[BaseAt(s, i)..BaseAt(s, i) + 64] == View(s)[BaseAt(s, i)..BaseAt(s, i) + 64])
            && (clear ==> !t.lines[i].tag.valid)
  {
    var u := WriteBack(s, i);
    WriteBackInv(s, i);
    WriteBackView(s, i);
    if clear {
      ReplaceClean(u, i, Clear(u, i).lines[i]);
    }
    if s.lines[i].tag.valid {
      assert LineOk(u, i);
      LineIsView(u, i);
    }
  }

  lemma ClearInv(s: State, i: nat)
    requires Inv(s) && i < 128
    ensures Inv(Clear(s, i))
  {
    var t := Clear(s, i);
    forall k | 0 <= k < 128 ensures LineOk(t, k) {
      assert LineOk(s, k);
    }
    forall k | 0 <= k < 64 ensures NoTwins(t, k) {
      assert NoTwins(s, k);
    }
  }

  lemma ClearByte(s: State, i: nat, a: nat)
    requires Inv(s) && i < 128 && a < |s.host| && Inv(Clear(s, i))
    ensures ByteAt(Clear(s, i), a) == if Covers(s, i, a) then s.host[a] else ByteAt(s, a)
  {
    var t := Clear(s, i);
    if Covers(s, i, a) {
      forall k | 0 <= k < 128 ensures !Covers(t, k, a) {
        if k != i && Covers(s, k, a) {
          OnlyOneCovers(s, i, k, a);
        }
      }
      ByteInMemory(t, a);
    } else {
      StoreElsewhere(s, t, i, a);
    }
  }

  /** DHIN and DXIN take exactly the bytes of a valid line back to memory. */
  lemma InvalidateOk(s: State, i: nat)
    requires Inv(s) && i < 128 && LineOk(s, i)
    ensures var t := LineOp(s, i, false, true);
            && Inv(t) && t.host == s.host && !t.lines[i].tag.valid
            && View(t) == if s.lines[i].tag.valid
                          then Splice(View(s), BaseAt(s, i), s.host[BaseAt(s, i)..BaseAt(s, i) + 64])
                          else View(s)
  {
    ClearInv(s, i);
    if s.lines[i].tag.valid {
      ClearView(s, i);
    } else {
      forall a | 0 <= a < |s.host| ensures ByteAt(Clear(s, i), a) == ByteAt(s, a) {
        ClearByte(s, i, a);
      }
    }
  }

  lemma ClearView(s: State, i: nat)
    requires Inv(s) && i < 128 && LineOk(s, i) && s.lines[i].tag.valid && Inv(Clear(s, i))
    ensures View(Clear(s, i)) == Splice(View(s), BaseAt(s, i), s.host[BaseAt(s, i)..BaseAt(s, i) + 64])
  {
    var v, base := View(Clear(s, i)), BaseAt(s, i);
    var bytes := s.host[base..base + 64];
    forall a | 0 <= a < |s.host| ensures v[a] == if base <= a < base + |bytes| then bytes[a - base] else View(s)[a] {
      ClearByte(s, i, a);
    }
    SpliceIs(View(s), base, bytes, v);
  }

  // ---------------------------------------------------------------- what each instruction leaves

  /** Where line j lies in memory: 4096 bytes a page, 64 a set. */
  function Home(s: State, j: nat): nat
    requires j < |s.lines|
  {
    4096 * s.lines[j].tag.page + 64 * (j / 2)
  }

  /** Only line j differs, and memory at most where that line lies. */
  ghost predicate OnlyLine(s: State, t: State, j: nat)
    requires j < |s.lines|
  {
    && |t.lines| == |s.lines| && |t.host| == |s.host|
    && (forall k | 0 <= k < |s.lines| && k != j :: t.lines[k] == s.lines[k])
    && (forall a | 0 <= a < |s.host| && !(s.lines[j].tag.valid && Home(s, j) <= a < Home(s, j) + 64) :: t.host[a] == s.host[a])
  }

  /** Line j, if valid, has been saved: memory holds there what the program saw. */
  ghost predicate Saved(s: State, t: State, j: nat)
    requires |s.lines| == 128 && j < 128
  {
    s.lines[j].tag.valid ==>
      Home(s, j) + 64 <= |s.host| && Home(s, j) + 64 <= |t.host|
      && t.host[Home(s, j)..Home(s, j) + 64] == View(s)[Home(s, j)..Home(s, j) + 64]
  }

  /** Written back, and still there, but clean. */
  ghost predicate WrittenBackAt(s: State, t: State, j: nat)
    requires |s.lines| == 128 && j < 128
  {
    && OnlyLine(s, t, j) && Saved(s, t, j) && t.lines[j].bytes == s.lines[j].bytes
    && t.lines[j].tag == s.lines[j].tag.(dirty := s.lines[j].tag.dirty && !s.lines[j].tag.valid)
  }

  /** Emptied: the line is invalid, all but its LRF flag zero. */
  ghost predicate EmptiedAt(s: State, t: State, j: nat)
    requires |s.lines| == 128 && j < 128
  {
    && OnlyLine(s, t, j) && t.lines[j].tag == Tag(0, false, false, s.lines[j].tag.lrf, false)
    && forall k | 0 <= k < 64 :: t.lines[j].bytes[k] == 0
  }

  /** Way w of the set of a holds its page. */
  predicate HitAt(s: State, a: nat, w: nat)
    requires |s.lines| == 128 && w < 2
  {
    s.lines[2 * (a / 64 % 64) + w].tag.valid && s.lines[2 * (a / 64 % 64) + w].tag.page == a / 4096
  }

  /** Written back without being emptied, written back and emptied, or emptied with memory as it was. */
  ghost predicate LineEffect(s: State, t: State, j: nat, writeBack: bool, clear: bool)
    requires |s.lines| == 128 && j < 128
  {
    if writeBack && !clear then WrittenBackAt(s, t, j)
    else if writeBack then EmptiedAt(s, t, j) && Saved(s, t, j)
    else EmptiedAt(s, t, j) && t.host == s.host
  }

  /** That of a hit operation on host address a: on the way that holds it, or none. */
  ghost predicate HitEffect(s: State, t: State, a: nat, writeBack: bool, clear: bool)
    requires |s.lines| == 128
  {
    && (HitAt(s, a, 0) ==> LineEffect(s, t, 2 * (a / 64 % 64), writeBack, clear))
    && (HitAt(s, a, 1) ==> LineEffect(s, t, 2 * (a / 64 % 64) + 1, writeBack, clear))
    && (!HitAt(s, a, 0) && !HitAt(s, a, 1) ==> t == s)
  }

  lemma SpliceElsewhere(m: seq<u8>, at: nat, bytes: seq<u8>)
    requires at + |bytes| <= |m|
    ensures forall a | 0 <= a < |m| && !(at <= a < at + |bytes|) :: Splice(m, at, bytes)[a] == m[a]
  {
  }

  lemma LineOpEffect(s: State, i: nat, writeBack: bool, clear: bool)
    requires Inv(s) && i < 128 && LineOk(s, i) && (writeBack || clear)
    ensures LineEffect(s, LineOp(s, i, writeBack, clear), i, writeBack, clear)
  {
    assert Home(s, i) == BaseAt(s, i);
    if writeBack {
      WriteBackOpOk(s, i, clear);
      if s.lines[i].tag.IsDirtyAndValid() {
        SpliceElsewhere(s.host, BaseAt(s, i), s.lines[i].bytes);
      }
    }
  }

  lemma HitOpEffect(s: State, a: nat, writeBack: bool, clear: bool)
    requires Inv(s) && (writeBack || clear)
    ensures HitEffect(s, HitOp(s, a, writeBack, clear), a, writeBack, clear)
  {
    assert NoTwins(s, a / 64 % 64);
    if !Misses(s, a) {
      assert LineOk(s, Pick(s, a));
      LineOpEffect(s, Pick(s, a), writeBack, clear);
    }
  }

  /** The hit instructions, by what they leave in lines and memory. */
  lemma HitInstructions(vmap: PageTable, s: State, addr: nat)
    requires Inv(s) && Mapped(vmap, s, addr)
    ensures addr / 4096 in vmap
    ensures HitEffect(s, Step(vmap, s, DHIN(addr)).0, Physical(vmap, addr), false, true)
    ensures HitEffect(s, Step(vmap, s, DHWBIN(addr)).0, Physical(vmap, addr), true, true)
    ensures HitEffect(s, Step(vmap, s, DHWOIN(addr)).0, Physical(vmap, addr), true, false)
  {
    var a := Translate(vmap, addr);
    assert a == Physical(vmap, addr);
    assert HitEffect(s, HitOp(s, a, false, true), a, false, true) by { HitOpEffect(s, a, false, true); }
    assert HitEffect(s, HitOp(s, a, true, true), a, true, true) by { HitOpEffect(s, a, true, true); }
    assert HitEffect(s, HitOp(s, a, true, false), a, true, false) by { HitOpEffect(s, a, true, false); }
  }

  /** And the index instructions. */
  lemma IndexInstructions(vmap: PageTable, s: State, addr: nat)
    requires Inv(s)
    ensures var j := 2 * (addr / 64 % 64) + addr % 2;
            && j < 128
            && LineEffect(s, Step(vmap, s, DXIN(addr)).0, j, false, true)
            && LineEffect(s, Step(vmap, s, DXLTG(addr)).0, j, true, false)
            && LineEffect(s, Step(vmap, s, DXWBIN(addr)).0, j, true, true)
  {
    var j := IndexLine(addr);
    assert LineEffect(s, LineOp(s, j, false, true), j, false, true) by { LineOpEffect(s, j, false, true); }
    assert LineEffect(s, LineOp(s, j, true, false), j, true, false) by { LineOpEffect(s, j, true, false); }
    assert LineEffect(s, LineOp(s, j, true, true), j, true, true) by { LineOpEffect(s, j, true, true); }
  }

  // ---------------------------------------------------------------- runs

  /** The address behind a virtual one, on plain memory: that of its page, and its offset there. */
  function Physical(vmap: PageTable, mem: nat): nat
    requires mem / 4096 in vmap
  {
    4096 * vmap[mem / 4096] + mem % 4096
  }

  /** Every instruction keeps the invariant. */
  lemma StepInv(vmap: PageTable, s: State, op: Op)
    requires Inv(s) && Enabled(vmap, s, op)
    ensures Inv(Step(vmap, s, op).0) && |Step(vmap, s, op).0.host| == |s.host|
  {
    match op
    case Read(mem, size) => ReadIsFlat(s, Translate(vmap, mem), size);
    case Write(mem, bytes) => WriteIsFlat(s, Translate(vmap, mem), bytes);
    case DHIN(mem) => HitOpInv(s, Translate(vmap, mem), false, true);
    case DHWBIN(mem) => HitOpInv(s, Translate(vmap, mem), true, true);
    case DHWOIN(mem) => HitOpInv(s, Translate(vmap, mem), true, false);
    case DXIN(addr) => LineOpInv(s, IndexLine(addr), false, true);
    case DXLTG(addr) => LineOpInv(s, IndexLine(addr), true, false);
    case DXWBIN(addr) => LineOpInv(s, IndexLine(addr), true, true);
    case Remap(_, _) =>
  }

  lemma LineOpInv(s: State, i: nat, writeBack: bool, clear: bool)
    requires Inv(s) && i < 128 && LineOk(s, i)
    ensures Inv(LineOp(s, i, writeBack, clear)) && |LineOp(s, i, writeBack, clear).host| == |s.host|
    ensures writeBack ==> View(LineOp(s, i, writeBack, clear)) == View(s)
  {
    if writeBack { WriteBackOpOk(s, i, clear); } else if clear { InvalidateOk(s, i); }
  }

  lemma HitOpInv(s: State, a: nat, writeBack: bool, clear: bool)
    requires Inv(s)
    ensures Inv(HitOp(s, a, writeBack, clear)) && |HitOp(s, a, writeBack, clear).host| == |s.host|
    ensures writeBack ==> View(HitOp(s, a, writeBack, clear)) == View(s)
    ensures Misses(s, a) ==> HitOp(s, a, writeBack, clear) == s
  {
    if !Misses(s, a) {
      assert LineOk(s, Pick(s, a));
      LineOpInv(s, Pick(s, a), writeBack, clear);
    }
  }

  /** The same instruction on plain memory: an access to the multiple of its size at or below the
      address, and nothing else. */
  function FlatStep(vmap: PageTable, m: seq<u8>, op: Op): (r: (seq<u8>, seq<u8>))
    requires Enabled(vmap, State([], m), op) && |m| % 4096 == 0
    ensures |r.0| == |m|
  {
    match op
    case Read(mem, size) =>
      FlatFits(vmap, m, mem, size);
      var a := Physical(vmap, mem);
      (m, m[a - a % size..a - a % size + size])
    case Write(mem, bytes) =>
      FlatFits(vmap, m, mem, |bytes|);
      var a := Physical(vmap, mem);
      (m[..a - a % |bytes|] + bytes + m[a - a % |bytes| + |bytes|..], [])
    case _ => (m, [])
  }

  lemma FlatFits(vmap: PageTable, m: seq<u8>, mem: nat, n: nat)
    requires Mapped(vmap, State([], m), mem) && AccessSize(n) && |m| % 4096 == 0
    ensures mem / 4096 in vmap && Physical(vmap, mem) == Translate(vmap, mem)
    ensures var a := Physical(vmap, mem); a % n <= a && a - a % n + n <= |m| && n > 0
  {
    AlignsDown(Translate(vmap, mem), n);
    AccessFits(Translate(vmap, mem), n);
    LineInside(Translate(vmap, mem), |m|);
  }

  /** The bytes returned by the accesses of a program run on the cache; it stops where an access
      is not allowed. */
  function Results(vmap: PageTable, s: State, ops: seq<Op>): seq<seq<u8>>
    requires Inv(s)
    decreases |ops|
  {
    if ops == [] || !Enabled(vmap, s, ops[0]) then []
    else
      StepInv(vmap, s, ops[0]);
      [Step(vmap, s, ops[0]).1] + Results(Remapped(vmap, ops[0]), Step(vmap, s, ops[0]).0, ops[1..])
  }

  /** The same program on plain memory. */
  function FlatResults(vmap: PageTable, m: seq<u8>, ops: seq<Op>): seq<seq<u8>>
    requires |m| % 4096 == 0
    decreases |ops|
  {
    if ops == [] || !Enabled(vmap, State([], m), ops[0]) then []
    else [FlatStep(vmap, m, ops[0]).1] + FlatResults(Remapped(vmap, ops[0]), FlatStep(vmap, m, ops[0]).0, ops[1..])
  }

  /** The state the program leaves, and the plain memory. */
  function Final(vmap: PageTable, s: State, ops: seq<Op>): State
    requires Inv(s)
    decreases |ops|
  {
    if ops == [] || !Enabled(vmap, s, ops[0]) then s
    else
      StepInv(vmap, s, ops[0]);
      Final(Remapped(vmap, ops[0]), Step(vmap, s, ops[0]).0, ops[1..])
  }

  function FlatFinal(vmap: PageTable, m: seq<u8>, ops: seq<Op>): seq<u8>
    requires |m| % 4096 == 0
    decreases |ops|
  {
    if ops == [] || !Enabled(vmap, State([], m), ops[0]) then m
    else FlatFinal(Remapped(vmap, ops[0]), FlatStep(vmap, m, ops[0]).0, ops[1..])
  }

  lemma ReadStepIsFlat(vmap: PageTable, s: State, mem: nat, size: nat)
    requires Inv(s) && Enabled(vmap, s, Read(mem, size))
    ensures View(Step(vmap, s, Read(mem, size)).0) == View(s)
    ensures Step(vmap, s, Read(mem, size)).1 == FlatStep(vmap, View(s), Read(mem, size)).1
  {
    FlatFits(vmap, View(s), mem, size);
    ReadIsFlat(s, Translate(vmap, mem), size);
  }

  lemma WriteStepIsFlat(vmap: PageTable, s: State, mem: nat, bytes: seq<u8>)
    requires Inv(s) && Enabled(vmap, s, Write(mem, bytes))
    ensures View(Step(vmap, s, Write(mem, bytes)).0) == FlatStep(vmap, View(s), Write(mem, bytes)).0
  {
    FlatFits(vmap, View(s), mem, |bytes|);
    WriteIsFlat(s, Translate(vmap, mem), bytes);
  }

  lemma StepIsFlat(vmap: PageTable, s: State, op: Op)
    requires Inv(s) && Enabled(vmap, s, op) && !op.DHIN? && !op.DXIN?
    ensures Inv(Step(vmap, s, op).0)
    ensures View(Step(vmap, s, op).0) == FlatStep(vmap, View(s), op).0
    ensures Step(vmap, s, op).1 == FlatStep(vmap, View(s), op).1
  {
    StepInv(vmap, s, op);
    match op
    case Read(mem, size) => ReadStepIsFlat(vmap, s, mem, size);
    case Write(mem, bytes) => WriteStepIsFlat(vmap, s, mem, bytes);
    case DHWBIN(mem) => HitOpInv(s, Translate(vmap, mem), true, true);
    case DHWOIN(mem) => HitOpInv(s, Translate(vmap, mem), true, false);
    case DXLTG(addr) => LineOpInv(s, IndexLine(addr), true, false);
    case DXWBIN(addr) => LineOpInv(s, IndexLine(addr), true, true);
    case Remap(_, _) =>
  }

  /** The cache refines flat memory: a program of reads, writes, write-backs and remappings gets
      from it, access by access, what it would get from the memory it stands in for; and once no
      line is dirty, that is what memory holds. */
  lemma {:induction false} CacheRefinesMemory(vmap: PageTable, s: State, ops: seq<Op>)
    requires Inv(s) && forall k | 0 <= k < |ops| :: !ops[k].DHIN? && !ops[k].DXIN?
    ensures Results(vmap, s, ops) == FlatResults(vmap, View(s), ops)
    ensures var t := Final(vmap, s, ops);
            && Inv(t) && View(t) == FlatFinal(vmap, View(s), ops)
            && ((forall i | 0 <= i < 128 :: !t.lines[i].tag.IsDirtyAndValid()) ==> t.host == View(t))
    decreases |ops|
  {
    if ops != [] && Enabled(vmap, s, ops[0]) {
      StepIsFlat(vmap, s, ops[0]);
      CacheRefinesMemory(Remapped(vmap, ops[0]), Step(vmap, s, ops[0]).0, ops[1..]);
    } else {
      WrittenBack(s);
    }
  }

  lemma WrittenBack(s: State)
    requires Inv(s)
    ensures (forall i | 0 <= i < 128 :: !s.lines[i].tag.IsDirtyAndValid()) ==> s.host == View(s)
  {
    if forall i | 0 <= i < 128 :: !s.lines[i].tag.IsDirtyAndValid() {
      forall a | 0 <= a < |s.host| ensures ByteAt(s, a) == s.host[a] {
        if i :| 0 <= i < 128 && Covers(s, i, a) {
          assert LineOk(s, i);
          ByteInLine(s, i, a);
        } else {
          ByteInMemory(s, a);
        }
      }
    }
  }

  lemma WriteThenRead(s: State, a: nat, bytes: seq<u8>)
    requires Inv(s) && 4096 <= a < |s.host| && AccessSize(|bytes|) && AlignDown(a, |bytes|) % 64 + |bytes| <= 64
    ensures Inv(WriteAt(s, a, bytes)) && ReadAt(WriteAt(s, a, bytes), a, |bytes|).1 == bytes
  {
    WriteIsFlat(s, a, bytes);
    ReadIsFlat(WriteAt(s, a, bytes), a, |bytes|);
    SpliceSame(View(s), a - a % |bytes|, bytes);
  }

  /** Two virtual pages on one host page see the same line: what is written through one is read
      back through the other. */
  lemma AliasesAgree(vmap: PageTable, s: State, mem: nat, alias: nat, bytes: seq<u8>)
    requires Inv(s) && Enabled(vmap, s, Write(mem, bytes)) && Enabled(vmap, s, Read(alias, |bytes|))
    requires vmap[PageOf(mem)] == vmap[PageOf(alias)] && mem % 4096 == alias % 4096
    ensures var t := Step(vmap, s, Write(mem, bytes)).0;
            Inv(t) && Enabled(vmap, t, Read(alias, |bytes|)) && Step(vmap, t, Read(alias, |bytes|)).1 == bytes
  {
    var a, n := Translate(vmap, mem), |bytes|;
    AccessFits(a, n);
    StepInv(vmap, s, Write(mem, bytes));
    var t := Step(vmap, s, Write(mem, bytes)).0;
    assert t == WriteAt(s, a, bytes);
    WriteThenRead(s, a, bytes);
    assert Translate(vmap, alias) == a && Mapped(vmap, t, alias);
    assert Step(vmap, t, Read(alias, n)) == ReadAt(t, a, n);
  }

  /** That keeps clean lines equal to memory exactly when the line is invalid or dirty, or the data
      is there already. */
  lemma StoreDataExact(s: State, i: nat, offset: nat, word: seq<u8>)
    requires Inv(s) && i < 128 && offset + |word| <= 64
    ensures Inv(StoreData(s, i, offset, word)) <==>
            (s.lines[i].tag.valid && !s.lines[i].tag.dirty ==> s.lines[i].bytes[offset..offset + |word|] == word)
  {
    var t := StoreData(s, i, offset, word);
    forall k | 0 <= k < 64 ensures NoTwins(t, k) {
      assert NoTwins(s, k);
    }
    forall k | 0 <= k < 128 && k != i ensures LineOk(t, k) {
      assert LineOk(s, k);
    }
    assert LineOk(s, i);
    assert t.lines[i].bytes[offset..offset + |word|] == word;
    if s.lines[i].bytes[offset..offset + |word|] == word {
      assert t.lines[i].bytes == s.lines[i].bytes;
    }
    assert Inv(t) <==> LineOk(t, i);
  }

  /** DXSTG keeps the invariant exactly when the line it leaves is invalid, or stands for memory
      there is, agrees with it unless it is marked dirty, and has no twin in its set. */
  lemma StoreTagExact(s: State, i: nat, x: u32)
    requires Inv(s) && i < 128
    ensures var l, valid, dirty := s.lines[i], x / 0x20 % 2 == 1, x / 0x40 % 2 == 1;
            Inv(StoreTag(s, i, x)) <==>
            (valid ==>
               && l.tag.page > 0 && BaseAt(s, i) + 64 <= |s.host|
               && (dirty || l.bytes == s.host[BaseAt(s, i)..BaseAt(s, i) + 64])
               && !s.lines[if i % 2 == 0 then i + 1 else i - 1].tag.Matches(l.tag.page))
  {
    var t := StoreTag(s, i, x);
    forall k | 0 <= k < 64 && k != i / 2 ensures NoTwins(t, k) {
      assert NoTwins(s, k);
    }
    forall k | 0 <= k < 128 && k != i ensures LineOk(t, k) {
      assert LineOk(s, k);
    }
    assert Inv(t) <==> LineOk(t, i) && NoTwins(t, i / 2);
  }

  lemma WordOfBytes(x: u32)
    ensures Word(Bytes(x)) == x
  {
    var h := x / 0x1_0000;
    assert x / 0x100 % 0x100 == (x % 0x1_0000) / 0x100;
    assert h == h % 0x100 + 0x100 * (x / 0x100_0000);
  }

  /** What DXSDT stores, DXLDT loads. */
  lemma DataRoundTrip(s: State, i: nat, offset: nat, x: u32)
    requires i < |s.lines| && offset + 4 <= 64
    ensures Word(StoreData(s, i, offset, Bytes(x)).lines[i].bytes[offset..offset + 4]) == x
  {
    SpliceSame(s.lines[i].bytes, offset, Bytes(x));
    WordOfBytes(x);
  }

  /** And the flags that DXLTG loads, DXSTG stores. */
  lemma TagRoundTrip(t: Tag, u: Tag)
    ensures WithFlags(t, Flags(u)) == Tag(t.page, u.dirty, u.valid, u.lrf, u.lock)
  {
  }

  // ---------------------------------------------------------------- replacement

  /** The way an instruction fills in set x, or 2 if it fills none there. */
  function FilledWay(vmap: PageTable, s: State, op: Op, x: nat): nat
    requires Inv(s) && Enabled(vmap, s, op) && x < 64
  {
    if (op.Read? || op.Write?) && SetOf(Translate(vmap, op.mem)) == x && Misses(s, Translate(vmap, op.mem))
    then Pick(s, Translate(vmap, op.mem)) % 2
    else 2
  }

  /** The ways filled in set x over a run. */
  function Fills(vmap: PageTable, s: State, ops: seq<Op>, x: nat): seq<nat>
    requires Inv(s) && x < 64
    decreases |ops|
  {
    if ops == [] || !Enabled(vmap, s, ops[0]) then []
    else
      StepInv(vmap, s, ops[0]);
      (if FilledWay(vmap, s, ops[0], x) < 2 then [FilledWay(vmap, s, ops[0], x)] else [])
      + Fills(Remapped(vmap, ops[0]), Step(vmap, s, ops[0]).0, ops[1..], x)
  }

  lemma AccessVictim(s: State, a: nat, x: nat)
    requires Inv(s) && a < |s.host| && x < 64
    ensures |Access(s, a).lines| == 128
    ensures var filled := Misses(s, a) && SetOf(a) == x;
            && (filled ==> Pick(s, a) % 2 == Victim(s, x))
            && Victim(Access(s, a), x) == if filled then 1 - Victim(s, x) else Victim(s, x)
  {
  }

  lemma StepVictim(vmap: PageTable, s: State, op: Op, x: nat)
    requires Inv(s) && Enabled(vmap, s, op) && x < 64
    ensures |Step(vmap, s, op).0.lines| == 128
    ensures var w := FilledWay(vmap, s, op, x);
            if w < 2 then w == Victim(s, x) && Victim(Step(vmap, s, op).0, x) == 1 - w
            else Victim(Step(vmap, s, op).0, x) == Victim(s, x)
  {
    match op
    case Read(mem, size) => AccessVictim(s, Translate(vmap, mem), x);
    case Write(mem, bytes) =>
      var a := Translate(vmap, mem);
      AccessVictim(s, a, x);
      AccessFits(a, |bytes|);
      StoreVictim(Access(s, a), Pick(s, a), AlignDown(a, |bytes|) % 64, bytes, x);
    case DHIN(mem) => HitOpVictim(s, Translate(vmap, mem), false, true, x);
    case DHWBIN(mem) => HitOpVictim(s, Translate(vmap, mem), true, true, x);
    case DHWOIN(mem) => HitOpVictim(s, Translate(vmap, mem), true, false, x);
    case DXIN(addr) => LineOpVictim(s, IndexLine(addr), false, true, x);
    case DXLTG(addr) => LineOpVictim(s, IndexLine(addr), true, false, x);
    case DXWBIN(addr) => LineOpVictim(s, IndexLine(addr), true, true, x);
    case Remap(_, _) =>
  }

  lemma StoreVictim(s: State, i: nat, offset: nat, bytes: seq<u8>, x: nat)
    requires |s.lines| == 128 && i < 128 && offset + |bytes| <= 64 && x < 64
    ensures |Store(s, i, offset, bytes).lines| == 128
    ensures Victim(Store(s, i, offset, bytes), x) == Victim(s, x)
  {
  }

  lemma LineOpVictim(s: State, i: nat, writeBack: bool, clear: bool, x: nat)
    requires Inv(s) && i < 128 && LineOk(s, i) && x < 64
    ensures |LineOp(s, i, writeBack, clear).lines| == 128
    ensures Victim(LineOp(s, i, writeBack, clear), x) == Victim(s, x)
  {
  }

  lemma HitOpVictim(s: State, a: nat, writeBack: bool, clear: bool, x: nat)
    requires Inv(s) && x < 64
    ensures |HitOp(s, a, writeBack, clear).lines| == 128
    ensures Victim(HitOp(s, a, writeBack, clear), x) == Victim(s, x)
  {
  }

  /** The two ways in turn, beginning with v. */
  predicate InTurn(ways: seq<nat>, v: nat) {
    ways == [] || (ways[0] == v <= 1 && InTurn(ways[1..], 1 - v))
  }

  /** Least recently filled: whatever hits, write-backs and invalidations come between, the fills
      of a set take its two ways in turn, so the line filled last is never the next victim. */
  lemma {:induction false} FillsAlternate(vmap: PageTable, s: State, ops: seq<Op>, x: nat)
    requires Inv(s) && x < 64
    ensures InTurn(Fills(vmap, s, ops, x), Victim(s, x))
    decreases |ops|
  {
    if ops != [] && Enabled(vmap, s, ops[0]) {
      StepInv(vmap, s, ops[0]);
      StepVictim(vmap, s, ops[0], x);
      FillsAlternate(Remapped(vmap, ops[0]), Step(vmap, s, ops[0]).0, ops[1..], x);
      var rest := Fills(Remapped(vmap, ops[0]), Step(vmap, s, ops[0]).0, ops[1..], x);
      var w := FilledWay(vmap, s, ops[0], x);
      assert ([w] + rest)[1..] == rest && [] + rest == rest;
    }
  }
}

module CacheCode {
  import opened CacheState
  import opened CacheRefinement

  /** The operations that keep the invariant, by their numbers. */
  function InstructionOf(rt: nat, addr: nat): Op {
    match rt
    case 0x1a => DHIN(addr)
    case 0x18 => DHWBIN(addr)
    case 0x1c => DHWOIN(addr)
    case 0x16 => DXIN(addr)
    case 0x10 => DXLTG(addr)
    case 0x14 => DXWBIN(addr)
    case _ => Remap(0, 0)
  }

  /** What an operation number means for lines and memory: which line, and what is left of it. */
  ghost predicate Effect(vmap: PageTable, s: State, t: State, rt: nat, addr: nat)
    requires |s.lines| == 128
  {
    var j := 2 * (addr / 64 % 64) + addr % 2;
    match rt
    case 0x1a => addr / 4096 in vmap && HitEffect(s, t, 4096 * vmap[addr / 4096] + addr % 4096, false, true)
    case 0x18 => addr / 4096 in vmap && HitEffect(s, t, 4096 * vmap[addr / 4096] + addr % 4096, true, true)
    case 0x1c => addr / 4096 in vmap && HitEffect(s, t, 4096 * vmap[addr / 4096] + addr % 4096, true, false)
    case 0x16 => LineEffect(s, t, j, false, true)
    case 0x10 => LineEffect(s, t, j, true, false)
    case 0x14 => LineEffect(s, t, j, true, true)
    case 0x13 => t.host == s.host && |t.lines| == 128 && forall k | 0 <= k < 128 && k != j :: t.lines[k] == s.lines[k]
    case 0x12 => t.host == s.host && |t.lines| == 128 && forall k | 0 <= k < 128 && k != j :: t.lines[k] == s.lines[k]
    case _ => t == s
  }

  /** And for CP0 TagLo and the line, from x to y: DXLTG loads the flags and DXLDT a word of data, DXSTG and
      DXSDT store them. */
  ghost predicate TagEffect(s: State, t: State, x: u32, y: u32, rt: nat, addr: nat)
    requires |s.lines| == 128
  {
    var j, o := 2 * (addr / 64 % 64) + addr % 2, addr % 64 - addr % 4;
    |t.lines| == 128 &&
    var was, now := s.lines[j], t.lines[j];
    match rt
    case 0x10 =>
      y == (if now.tag.dirty then 0x40 else 0) + (if now.tag.valid then 0x20 else 0)
           + (if now.tag.lrf then 0x10 else 0) + (if now.tag.lock then 0x8 else 0)
    case 0x11 => WordIs(now.bytes, o, y)
    case 0x13 =>
      y == x && now.tag == was.tag && WordIs(now.bytes, o, x)
      && forall k | 0 <= k < 64 && !(o <= k < o + 4) :: now.bytes[k] == was.bytes[k]
    case 0x12 =>
      y == x && now == was.(tag := Tag(was.tag.page, x / 0x40 % 2 == 1, x / 0x20 % 2 == 1, x / 0x10 % 2 == 1, x / 0x8 % 2 == 1))
    case _ => y == x
  }

  /** Four bytes of a line are a word, the first of them its low-order byte. */
  predicate WordIs(bytes: Bytes64, o: nat, x: u32) {
    o + 4 <= 64 &&
    var b0: int, b1: int, b2: int, b3: int := bytes[o], bytes[o + 1], bytes[o + 2], bytes[o + 3];
    x == b0 + 0x100 * b1 + 0x1_0000 * b2 + 0x100_0000 * b3
  }

  lemma WordPlace(addr: nat)
    ensures WordAt(addr) == addr % 64 - addr % 4 && WordAt(addr) + 4 <= 64
  {
    var q := addr / 64;
    assert addr == 64 * q + addr % 64;
    assert addr % 4 == addr % 64 % 4;
  }

  lemma WordThere(bytes: Bytes64, o: nat)
    requires o + 4 <= 64
    ensures WordIs(bytes, o, Word(bytes[o..o + 4]))
  {
  }

  lemma WordPut(bytes: Bytes64, o: nat, x: u32)
    requires o + 4 <= 64
    ensures WordIs(Splice(bytes, o, Bytes(x)), o, x)
    ensures forall k | 0 <= k < 64 && !(o <= k < o + 4) :: Splice(bytes, o, Bytes(x))[k] == bytes[k]
  {
    WordOfBytes(x);
    SpliceSame(bytes, o, Bytes(x));
    SpliceElsewhere(bytes, o, Bytes(x));
    WordThere(Splice(bytes, o, Bytes(x)), o);
  }

  lemma HitIs(s: State, a: nat, writeBack: bool, clear: bool)
    requires Inv(s)
    ensures var way := Find(s, SetOf(a), PageOf(a));
            if way == 2 then HitOp(s, a, writeBack, clear) == s
            else LineOk(s, 2 * SetOf(a) + way) && HitOp(s, a, writeBack, clear) == LineOp(s, 2 * SetOf(a) + way, writeBack, clear)
  {
  }

  lemma HitDocumented(vmap: PageTable, s: State, rt: nat, addr: nat, writeBack: bool, clear: bool)
    requires Inv(s) && Mapped(vmap, s, addr)
    requires (rt == 0x1a && !writeBack && clear) || (rt == 0x18 && writeBack && clear) || (rt == 0x1c && writeBack && !clear)
    ensures var t := HitOp(s, Translate(vmap, addr), writeBack, clear);
            && Inv(t) && t == Step(vmap, s, InstructionOf(rt, addr)).0 && Effect(vmap, s, t, rt, addr)
            && (writeBack ==> View(t) == View(s))
  {
    HitInstructions(vmap, s, addr);
    HitOpInv(s, Translate(vmap, addr), writeBack, clear);
  }

  lemma IndexDocumented(vmap: PageTable, s: State, rt: nat, addr: nat, writeBack: bool, clear: bool)
    requires Inv(s) && LineOk(s, IndexLine(addr))
    requires (rt == 0x16 && !writeBack && clear) || (rt == 0x10 && writeBack && !clear) || (rt == 0x14 && writeBack && clear)
    ensures var t := LineOp(s, IndexLine(addr), writeBack, clear);
            && Inv(t) && t == Step(vmap, s, InstructionOf(rt, addr)).0 && Effect(vmap, s, t, rt, addr)
            && (writeBack ==> View(t) == View(s))
  {
    IndexInstructions(vmap, s, addr);
    LineOpInv(s, IndexLine(addr), writeBack, clear);
  }

  /** The static cache, host memory and the page map, updated in place. */
  class Cache {
    const lines: array<Line>
    const memory: array<u8>
    var vmap: PageTable
    /** CP0 TagLo. */
    var tagLo: u32

    ghost function Now(): State
      reads this, lines, memory
    {
      State(lines[..], memory[..])
    }

    ghost predicate Valid()
      reads this, lines, memory
    {
      Inv(Now())
    }

    /** Host memory is given; the cache starts reset. */
    constructor (memory: array<u8>, vmap: PageTable)
      requires memory.Length % 4096 == 0
      ensures Valid() && fresh(lines) && this.memory == memory && this.vmap == vmap
      ensures View(Now()) == memory[..]
      ensures forall x | 0 <= x < 64 :: Victim(Now(), x) == 0
    {
      this.memory := memory;
      this.vmap := vmap;
      lines := new Line[128](_ => Line(Tag(0, false, false, false, false), Zeros()));
      tagLo := 0;
      new;
      ResetView(Now());
    }

    /** CacheLine::writeBackIfNeeded. */
    method WriteBackIfNeeded(i: nat)
      requires i < lines.Length && LineOk(Now(), i)
      modifies lines, memory
      ensures Now() == WriteBack(old(Now()), i)
    {
      var l := lines[i];
      if !l.tag.IsDirtyAndValid() {
        return;
      }
      var target := LineBase(l.tag.page, i / 2);
      forall k | 0 <= k < 64 {
        memory[target + k] := l.bytes[k];
      }
      lines[i] := Clean(l);
    }

    /** CacheLine::load. */
    method LoadLine(i: nat, ppf: nat)
      requires i < lines.Length && SetOf(ppf) == i / 2 && ppf < memory.Length && memory.Length % 4096 == 0
      modifies lines
      ensures LineBase(PageOf(ppf), i / 2) + 64 <= memory.Length
      ensures Now() == Load(old(Now()), i, PageOf(ppf))
    {
      LineInside(ppf, memory.Length);
      var base := LineBase(PageOf(ppf), i / 2);
      lines[i] := Line(lines[i].tag.(page := PageOf(ppf), valid := true, dirty := false), memory[base..base + 64]);
    }

    /** CacheLine::clear. */
    method ClearLine(i: nat)
      requires i < lines.Length
      modifies lines
      ensures Now() == Clear(old(Now()), i)
    {
      lines[i] := Line(Tag(0, false, false, lines[i].tag.lrf, false), Zeros());
    }

    /** findInCache. */
    method FindInCache(set_: nat, page: nat) returns (way: nat)
      requires lines.Length == 128 && set_ < 64
      ensures way == Find(Now(), set_, page)
    {
      if lines[2 * set_].tag.Matches(page) {
        return 0;
      }
      if lines[2 * set_ + 1].tag.Matches(page) {
        return 1;
      }
      return 2;
    }

    /** getFreeCache. */
    method GetFreeCache(mem: nat) returns (i: nat)
      requires Valid() && Mapped(vmap, Now(), mem)
      modifies lines, memory
      ensures Now() == Access(old(Now()), Translate(vmap, mem)) && i == Pick(old(Now()), Translate(vmap, mem))
    {
      var setIdx := SetOf(mem);
      var ppf := Translate(vmap, mem);
      SamePlace(vmap, mem, 1);
      var way := FindInCache(setIdx, PageOf(ppf));
      i := 2 * setIdx + way;
      if way == 2 {
        i := 2 * setIdx + if lines[2 * setIdx].tag.lrf != lines[2 * setIdx + 1].tag.lrf then 1 else 0;
        assert LineOk(Now(), i);
        WriteBackIfNeeded(i);
        LoadLine(i, ppf);
        var l := lines[i];
        lines[i] := l.(tag := l.tag.(lrf := !l.tag.lrf));
      }
    }

    /** readCache8 to readCache128. */
    method ReadCache(mem: nat, size: nat) returns (value: seq<u8>)
      requires Valid() && Enabled(vmap, Now(), Read(mem, size))
      modifies lines, memory
      ensures Valid() && (Now(), value) == Step(vmap, old(Now()), Read(mem, size))
      ensures View(Now()) == View(old(Now()))
      ensures mem / 4096 in vmap && size > 0 &&
              var a := 4096 * vmap[mem / 4096] + mem % 4096;
              a % size <= a && a - a % size + size <= memory.Length
              && value == View(old(Now()))[a - a % size..a - a % size + size]
    {
      FlatFits(vmap, View(Now()), mem, size);
      StepIsFlat(vmap, Now(), Read(mem, size));
      AccessFits(Translate(vmap, mem), size);
      SamePlace(vmap, mem, size);
      var i := GetFreeCache(mem);
      var at := AlignDown(mem, size) % 64;
      value := lines[i].bytes[at..at + size];
    }

    /** writeCache8 to writeCache128. */
    method WriteCache(mem: nat, value: seq<u8>)
      requires Valid() && Enabled(vmap, Now(), Write(mem, value))
      modifies lines, memory
      ensures Valid() && Now() == Step(vmap, old(Now()), Write(mem, value)).0
      ensures mem / 4096 in vmap && |value| > 0 &&
              var a, v := 4096 * vmap[mem / 4096] + mem % 4096, View(old(Now()));
              a % |value| <= a && a - a % |value| + |value| <= memory.Length
              && View(Now()) == v[..a - a % |value|] + value + v[a - a % |value| + |value|..]
    {
      FlatFits(vmap, View(Now()), mem, |value|);
      StepIsFlat(vmap, Now(), Write(mem, value));
      AccessFits(Translate(vmap, mem), |value|);
      SamePlace(vmap, mem, |value|);
      var i := GetFreeCache(mem);
      var l := lines[i];
      lines[i] := Line(l.tag.(dirty := true), Splice(l.bytes, AlignDown(mem, |value|) % 64, value));
    }

    /** The bodies of the CACHE cases, on the line they name or hit. */
    method OperateOnLine(i: nat, writeBack: bool, clear: bool)
      requires Valid() && i < 128 && LineOk(Now(), i)
      modifies lines, memory
      ensures Now() == LineOp(old(Now()), i, writeBack, clear)
    {
      if writeBack {
        WriteBackIfNeeded(i);
      }
      if clear {
        ClearLine(i);
      }
    }

    /** doCacheHitOp. */
    method DoCacheHitOp(addr: nat, writeBack: bool, clear: bool)
      requires Valid() && Mapped(vmap, Now(), addr)
      modifies lines, memory
      ensures Now() == HitOp(old(Now()), Translate(vmap, addr), writeBack, clear)
    {
      var index := SetOf(addr);
      var ppf := Translate(vmap, addr);
      SamePlace(vmap, addr, 1);
      HitIs(Now(), ppf, writeBack, clear);
      var way := FindInCache(index, PageOf(ppf));
      if way == 2 {
        return;
      }
      assert LineOk(Now(), 2 * index + way);
      OperateOnLine(2 * index + way, writeBack, clear);
    }

    /** CACHE, by its operation number. */
    method CACHE(rt: nat, addr: nat)
      requires Valid()
      requires rt in {0x1a, 0x18, 0x1c} ==> Mapped(vmap, Now(), addr)
      modifies lines, memory, this`tagLo
      ensures rt !in {0x12, 0x13} ==> Valid()
      ensures rt !in {0x12, 0x13} ==> Now() == Step(vmap, old(Now()), InstructionOf(rt, addr)).0
      ensures Effect(vmap, old(Now()), Now(), rt, addr)
      ensures TagEffect(old(Now()), Now(), old(tagLo), tagLo, rt, addr)
      ensures rt !in {0x12, 0x13, 0x1a, 0x16} ==> View(Now()) == View(old(Now()))
    {
      match rt {
        case 0x1a => HitInstruction(rt, addr, false, true);
        case 0x18 => HitInstruction(rt, addr, true, true);
        case 0x1c => HitInstruction(rt, addr, true, false);
        case 0x16 => IndexInstruction(rt, addr, false, true);
        case 0x10 =>
          IndexInstruction(rt, addr, true, false);
          tagLo := Flags(lines[IndexLine(addr)].tag);
        case 0x14 => IndexInstruction(rt, addr, true, true);
        case 0x11 =>
          WordPlace(addr);
          WordThere(lines[IndexLine(addr)].bytes, WordAt(addr));
          tagLo := Word(lines[IndexLine(addr)].bytes[WordAt(addr)..WordAt(addr) + 4]);
        case 0x13 =>
          WordPlace(addr);
          StoreWord(IndexLine(addr), WordAt(addr));
        case 0x12 =>
          lines[IndexLine(addr)] := lines[IndexLine(addr)].(tag := WithFlags(lines[IndexLine(addr)].tag, tagLo));
        case _ =>
      }
    }

    /** DHIN, DHWBIN and DHWOIN. */
    method HitInstruction(ghost rt: nat, addr: nat, writeBack: bool, clear: bool)
      requires Valid() && Mapped(vmap, Now(), addr)
      requires (rt == 0x1a && !writeBack && clear) || (rt == 0x18 && writeBack && clear) || (rt == 0x1c && writeBack && !clear)
      modifies lines, memory
      ensures Valid() && Now() == Step(vmap, old(Now()), InstructionOf(rt, addr)).0
      ensures Effect(vmap, old(Now()), Now(), rt, addr)
      ensures writeBack ==> View(Now()) == View(old(Now()))
    {
      HitDocumented(vmap, Now(), rt, addr, writeBack, clear);
      DoCacheHitOp(addr, writeBack, clear);
    }

    /** DXIN, DXLTG and DXWBIN. */
    method IndexInstruction(ghost rt: nat, addr: nat, writeBack: bool, clear: bool)
      requires Valid()
      requires (rt == 0x16 && !writeBack && clear) || (rt == 0x10 && writeBack && !clear) || (rt == 0x14 && writeBack && clear)
      modifies lines, memory
      ensures Valid() && Now() == Step(vmap, old(Now()), InstructionOf(rt, addr)).0
      ensures Effect(vmap, old(Now()), Now(), rt, addr)
      ensures writeBack ==> View(Now()) == View(old(Now()))
    {
      assert LineOk(Now(), IndexLine(addr));
      IndexDocumented(vmap, Now(), rt, addr, writeBack, clear);
      OperateOnLine(IndexLine(addr), writeBack, clear);
    }

    /** The store of DXSDT. */
    method StoreWord(i: nat, offset: nat)
      requires i < lines.Length && offset + 4 <= 64
      modifies lines
      ensures Now() == StoreData(old(Now()), i, offset, Bytes(tagLo))
      ensures lines[i].tag == old(lines[i]).tag && WordIs(lines[i].bytes, offset, tagLo)
      ensures forall k | 0 <= k < 64 && !(offset <= k < offset + 4) :: lines[i].bytes[k] == old(lines[i]).bytes[k]
    {
      WordPut(lines[i].bytes, offset, tagLo);
      lines[i] := Line(lines[i].tag, Splice(lines[i].bytes, offset, Bytes(tagLo)));
    }
  }

  lemma ResetView(s: State)
    requires |s.lines| == 128 && |s.host| % 4096 == 0 && forall i | 0 <= i < 128 :: !s.lines[i].tag.valid
    ensures Inv(s) && View(s) == s.host
  {
  }

  /** An empty cache over a page of memory, all zero. */
  ghost predicate AllZero(s: State) {
    && |s.lines| == 128 && |s.host| == 8192 && (forall k | 0 <= k < 8192 :: s.host[k] == 0)
    && forall i | 0 <= i < 128 :: s.lines[i] == Line(Tag(0, false, false, false, false), Zeros())
  }

  lemma FirstFill(s: State)
    requires AllZero(s)
    ensures Inv(s) && Inv(Access(s, 4096))
    ensures var t := Access(s, 4096);
            && t.lines[0].tag == Tag(1, false, true, true, false) && t.lines[0].bytes[0..4][0] == 0
            && t.lines[1] == s.lines[1]
  {
    ResetView(s);
    AccessOk(s, 4096);
    assert Access(s, 4096).lines[0].bytes == s.host[4096..4160];
    assert s.host[4096..4160][0] == s.host[4096];
  }

  /** With the first line of memory just read: a DXSDT of other data into it breaks the invariant, and so
      does a DXSTG that makes the empty way beside it valid, as that stands for no memory. */
  lemma StoresBreakInvariant(s0: State)
    requires AllZero(s0)
    ensures Inv(s0) && Inv(Access(s0, 4096))
    ensures !Inv(StoreData(Access(s0, 4096), 0, 0, [1, 0, 0, 0])) && !Inv(StoreTag(Access(s0, 4096), 1, 0x20))
  {
    FirstFill(s0);
    BreaksInvariant(Access(s0, 4096));
  }

  lemma BreaksInvariant(s: State)
    requires Inv(s) && s.lines[0].tag == Tag(1, false, true, true, false) && s.lines[0].bytes[0..4][0] == 0
    requires s.lines[1].tag.page == 0
    ensures !Inv(StoreData(s, 0, 0, [1, 0, 0, 0])) && !Inv(StoreTag(s, 1, 0x20))
  {
    assert [1, 0, 0, 0][0] == 1;
    StoreDataExact(s, 0, 0, [1, 0, 0, 0]);
    StoreTagExact(s, 1, 0x20);
  }
}
