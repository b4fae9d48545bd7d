/** Lab 3 descriptor sets: 32 words of 32 bits, as a finite set of slots 0..1023. */
module FdSets {
  import opened GoInts

  const WORDS: nat := 32
  const LIMIT: nat := 1024

  /** `1 << k` on a 32-bit word; bit 31 is the sign bit of the source's int32. */
  function Mask(k: nat): bv32
    requires k < 32
  {
    (1 as bv32) << k
  }

  predicate Has(bits: seq<bv32>, fd: nat)
    requires |bits| == WORDS && fd < LIMIT
  {
    bits[fd / 32] & Mask(fd % 32) != 0
  }

  /** The set the words stand for. */
  function View(bits: seq<bv32>): set<int>
    requires |bits| == WORDS
  {
    set fd: nat | fd < LIMIT && Has(bits, fd)
  }

  // ---------- words ----------

  /** Two to the `k`, counted up from 1 by doubling. */
  function Power(k: nat): bv32
    requires k < 32
  {
    if k == 0 then 1 else Power(k - 1) + Power(k - 1)
  }

  lemma {:induction false} MaskIsPower(k: nat)
    requires k < 32
    ensures Mask(k) == Power(k)
  {
    if k > 0 {
      MaskIsPower(k - 1);
      MaskDoubles(k - 1);
    }
  }

  lemma MaskDoubles(k: nat)
    requires k < 31
    ensures Mask(0) == 1 && Mask(k + 1) == Mask(k) + Mask(k)
  {
  }

  lemma SetBit(w: bv32, i: nat, j: nat)
    requires i < 32 && j < 32
    ensures (w | Mask(i)) & Mask(j) != 0 <==> i == j || w & Mask(j) != 0
  {
  }

  /** A word is zero exactly when none of its 32 bits is set, the sign bit included. */
  lemma ZeroWord(w: bv32)
    ensures w == 0 <==> forall j: nat :: j < 32 ==> w & Mask(j) == 0
  {
    if forall j: nat :: j < 32 ==> w & Mask(j) == 0 {
      ZeroByte(w, 0);
      ZeroByte(w, 8);
      ZeroByte(w, 16);
      ZeroByte(w, 24);
    }
  }

  lemma ZeroByte(w: bv32, k: nat)
    requires k == 0 || k == 8 || k == 16 || k == 24
    requires forall j: nat :: j < 32 ==> w & Mask(j) == 0
    ensures w & ((0xFF as bv32) << k) == 0
  {
    assert
      && w & Mask(k) == 0 && w & Mask(k + 1) == 0 && w & Mask(k + 2) == 0 && w & Mask(k + 3) == 0
      && w & Mask(k + 4) == 0 && w & Mask(k + 5) == 0 && w & Mask(k + 6) == 0 && w & Mask(k + 7) == 0;
  }

  lemma EmptyView(bits: seq<bv32>)
    requires |bits| == WORDS
    ensures View(bits) == {} <==> forall i :: 0 <= i < WORDS ==> bits[i] == 0
  {
    if View(bits) == {} {
      forall i | 0 <= i < WORDS ensures bits[i] == 0 {
        forall j: nat | j < 32 ensures bits[i] & Mask(j) == 0 {
          var fd := 32 * i + j;
          assert fd / 32 == i && fd % 32 == j;
          assert fd !in View(bits);
        }
        ZeroWord(bits[i]);
      }
    } else {
      var fd :| fd in View(bits);
      ZeroWord(bits[fd / 32]);
    }
  }

  // ---------- descriptors ----------

  /** The descriptors that index a word at all: Go's division truncates, so -31..-1 index word 0. */
  predicate Addressable(fd: int) {
    -32 < fd < LIMIT
  }

  /** The bit a descriptor lands in: its own number, or 32 more if it is negative. */
  function Slot(fd: int): int {
    if fd < 0 then fd + 32 else fd
  }

  function Slots(fds: set<int>): set<int> {
    set fd | fd in fds :: Slot(fd)
  }

  lemma SlotPosition(fd: int)
    requires Addressable(fd)
    ensures 0 <= Slot(fd) < LIMIT
    ensures TruncDiv(fd, 32) == Slot(fd) / 32 && fd % 32 == Slot(fd) % 32
  {
  }

  /** Two descriptors share a bit exactly when they are equal or one is the other's negative alias, 32 below. */
  lemma SharedSlot(a: int, b: int)
    requires Addressable(a) && Addressable(b)
    ensures Slot(a) == Slot(b) <==> a == b || (a < 0 <= b && b == a + 32) || (b < 0 <= a && a == b + 32)
  {
  }

  /** The slots are the descriptors themselves exactly when none of those is negative. */
  lemma SlotsExact(fds: set<int>)
    requires forall fd :: fd in fds ==> Addressable(fd)
    ensures Slots(fds) == fds <==> forall fd :: fd in fds ==> fd >= 0
  {
    assert forall slot :: slot in Slots(fds) ==> slot >= 0;
    if forall fd :: fd in fds ==> fd >= 0 {
      assert forall fd :: fd in fds ==> Slot(fd) == fd && Slot(fd) in Slots(fds);
    }
  }

  // ---------- operations ----------

  /** Panics in the source for other descriptors. */
  method FDSet(fd: int, bits: array<bv32>)
    requires bits.Length == WORDS && Addressable(fd)
    modifies bits
    ensures View(bits[..]) == View(old(bits[..])) + {Slot(fd)}
    ensures 0 <= Slot(fd) < LIMIT
    ensures forall i :: 0 <= i < WORDS ==>
              bits[i] == if i == Slot(fd) / 32 then old(bits[i]) | Power(Slot(fd) % 32) else old(bits[i])
  {
    SlotPosition(fd);
    MaskIsPower(fd % 32);
    ghost var before, slot := bits[..], Slot(fd);
    bits[TruncDiv(fd, 32)] := bits[TruncDiv(fd, 32)] | Mask(fd % 32);
    forall g: nat | g < LIMIT ensures Has(bits[..], g) <==> g == slot || Has(before, g) {
      SetBit(before[slot / 32], slot % 32, g % 32);
    }
  }

  /** Descriptors from 1024 on are in no set; those below -31 panic in the source. */
  method FDIsSet(fd: int, bits: array<bv32>) returns (b: bool)
    requires bits.Length == WORDS && fd > -32
    ensures b <==> Slot(fd) in View(bits[..])
  {
    if TruncDiv(fd, 32) >= bits.Length {
      return false;
    }
    SlotPosition(fd);
    b := bits[TruncDiv(fd, 32)] & Mask(fd % 32) != 0;
  }

  method FDZero(bits: array<bv32>)
    requires bits.Length == WORDS
    modifies bits
    ensures View(bits[..]) == {}
  {
    for i := 0 to bits.Length
      invariant forall k :: 0 <= k < i ==> bits[k] == 0
    {
      bits[i] := 0;
    }
    EmptyView(bits[..]);
  }

  function One(w: bv32): nat { if w != 0 then 1 else 0 }

  function NonZero(bits: seq<bv32>): nat {
    if bits == [] then 0 else NonZero(bits[..|bits| - 1]) + One(bits[|bits| - 1])
  }

  lemma {:induction false} NonZeroNone(bits: seq<bv32>)
    ensures NonZero(bits) == 0 <==> forall i :: 0 <= i < |bits| ==> bits[i] == 0
  {
    if bits != [] {
      NonZeroNone(bits[..|bits| - 1]);
    }
  }

  /** The kernel's three answers. */
  datatype Answer = Answer(read: seq<bv32>, write: seq<bv32>, except: seq<bv32>)

  predicate WellFormed(a: Answer) {
    |a.read| == |a.write| == |a.except| == WORDS
  }

  function ReadyWords(a: Answer): nat {
    NonZero(a.read) + NonZero(a.write) + NonZero(a.except)
  }

  lemma NonZeroNext(bits: seq<bv32>, i: nat)
    requires i < |bits|
    ensures NonZero(bits[..i + 1]) == NonZero(bits[..i]) + One(bits[i])
  {
    assert bits[..i + 1][..i] == bits[..i];
  }

  /** The count is zero exactly when no descriptor is ready for anything. */
  lemma CountIsZero(a: Answer)
    requires WellFormed(a)
    ensures ReadyWords(a) == 0
       <==> View(a.read) == View(a.write) == View(a.except) == {}
  {
    NonZeroNone(a.read);
    NonZeroNone(a.write);
    NonZeroNone(a.except);
    EmptyView(a.read);
    EmptyView(a.write);
    EmptyView(a.except);
  }

  /** One word of one set: copied, and counted if not empty. */
  method CopyWord(answer: seq<bv32>, bits: array<bv32>, i: nat, count: nat) returns (total: nat)
    requires |answer| == bits.Length == WORDS && i < WORDS && bits[..i] == answer[..i]
    modifies bits
    ensures bits[..i + 1] == answer[..i + 1]
    ensures total - count == NonZero(answer[..i + 1]) - NonZero(answer[..i])
  {
    NonZeroNext(answer, i);
    bits[i] := answer[i];
    total := if answer[i] != 0 then count + 1 else count;
  }

  /** `Select` after the system call returned `answer`: the three sets are copied word by word in one loop and
      every non-empty word adds one to the count. */
  method CollectReady(answer: Answer, read: array<bv32>, write: array<bv32>, except: array<bv32>) returns (count: nat)
    requires WellFormed(answer)
    requires read.Length == write.Length == except.Length == WORDS
    requires read != write && read != except && write != except
    modifies read, write, except
    ensures read[..] == answer.read && write[..] == answer.write && except[..] == answer.except
    ensures count == ReadyWords(answer)
    ensures count == 0 <==> View(answer.read) == View(answer.write) == View(answer.except) == {}
  {
    hide Has, View, NonZero;
    count := 0;
    NonZeroNone(answer.read[..0]);
    NonZeroNone(answer.write[..0]);
    NonZeroNone(answer.except[..0]);
    for i := 0 to WORDS
      invariant read[..i] == answer.read[..i] && write[..i] == answer.write[..i] && except[..i] == answer.except[..i]
      invariant count == NonZero(answer.read[..i]) + NonZero(answer.write[..i]) + NonZero(answer.except[..i])
    {
      count := CopyWord(answer.read, read, i, count);
      count := CopyWord(answer.write, write, i, count);
      count := CopyWord(answer.except, except, i, count);
    }
    assert answer.read[..WORDS] == answer.read && answer.write[..WORDS] == answer.write
           && answer.except[..WORDS] == answer.except;
    CountIsZero(answer);
  }
}
