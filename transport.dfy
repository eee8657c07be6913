/**
 The write loop pcaWriteBytes against the EEPROM behind the bus: one
 single-byte transaction per data byte, register address wrapping at 256,
 and the first failing transaction ending the loop.
 */
module Transport {
  import opened Board

  /** One single-byte bus write: the register address byte, then the data byte. */
  datatype Transaction = Transaction(register: uint8, data: uint8)

  /** The cell that byte `j` of a write starting at register `addr` is meant for. */
  function Target(addr: uint8, j: nat): uint8
  {
    (addr + j) % MemorySize
  }

  /** The register of transaction `i` as the source computes it: `byte(addr + byte(i))`. */
  function Register(addr: uint8, i: nat): (reg: uint8)
    ensures reg == Target(addr, i)
  {
    (addr + i % 0x100) % 0x100
  }

  /** The transactions that put `bytes` on the bus starting at register `addr`. */
  function Transactions(addr: uint8, bytes: seq<uint8>): (t: seq<Transaction>)
    ensures |t| == |bytes|
    ensures forall j :: 0 <= j < |bytes| ==> t[j].register == Register(addr, j) && t[j].data == bytes[j]
  {
    seq(|bytes|, j requires 0 <= j < |bytes| => Transaction(Target(addr, j), bytes[j]))
  }

  /** Device memory after `bytes` have been written one by one, in order, from register `addr` on. */
  function Stored(mem: seq<uint8>, addr: uint8, bytes: seq<uint8>): (m: seq<uint8>)
    requires |mem| == MemorySize
    ensures |m| == MemorySize
    decreases |bytes|
  {
    if bytes == [] then mem
    else
      var n := |bytes| - 1;
      Stored(mem, addr, bytes[..n])[Target(addr, n) := bytes[n]]
  }

  /** Index of the first transaction among `i .. n-1` that the oracle fails, or `n` if none does. */
  function FirstFailure(fails: nat -> bool, n: nat, i: nat): (k: nat)
    requires i <= n
    ensures i <= k <= n
    ensures k < n ==> fails(k)
    ensures forall j :: i <= j < k ==> !fails(j)
    decreases n - i
  {
    if i == n then n
    else if fails(i) then i
    else FirstFailure(fails, n, i + 1)
  }

  /** Two transactions fewer than 256 apart address different registers. */
  lemma RegistersDistinct(addr: uint8, j: nat, k: nat)
    requires j < k < j + MemorySize
    ensures Target(addr, j) != Target(addr, k)
  {
    var a, b := addr + j, addr + k;
    assert a == (a / MemorySize) * MemorySize + a % MemorySize;
    assert b == (b / MemorySize) * MemorySize + b % MemorySize;
  }

  /** A cell no transaction addresses keeps its old value. */
  lemma {:induction false} StoredUntouched(mem: seq<uint8>, addr: uint8, bytes: seq<uint8>, c: nat)
    requires |mem| == MemorySize && c < MemorySize
    requires forall j :: 0 <= j < |bytes| ==> Target(addr, j) != c
    ensures Stored(mem, addr, bytes)[c] == mem[c]
    decreases |bytes|
  {
    if bytes != [] {
      var n := |bytes| - 1;
      StoredUntouched(mem, addr, bytes[..n], c);
    }
  }

  /** The last byte written to a cell is the one it holds. */
  lemma {:induction false} StoredLastWriter(mem: seq<uint8>, addr: uint8, bytes: seq<uint8>, j: nat)
    requires |mem| == MemorySize && j < |bytes|
    requires forall l :: j < l < |bytes| ==> Target(addr, l) != Target(addr, j)
    ensures Stored(mem, addr, bytes)[Target(addr, j)] == bytes[j]
    decreases |bytes|
  {
    var n := |bytes| - 1;
    if j < n {
      StoredLastWriter(mem, addr, bytes[..n], j);
    }
  }

  /** Without wrap-around (at most 256 bytes), byte j ends up in cell (addr + j) mod 256. */
  lemma StoredWritten(mem: seq<uint8>, addr: uint8, bytes: seq<uint8>, j: nat)
    requires |mem| == MemorySize && |bytes| <= MemorySize && j < |bytes|
    ensures Stored(mem, addr, bytes)[Target(addr, j)] == bytes[j]
  {
    forall l | j < l < |bytes|
      ensures Target(addr, l) != Target(addr, j)
    {
      RegistersDistinct(addr, j, l);
    }
    StoredLastWriter(mem, addr, bytes, j);
  }

  /** Writing at most 256 bytes from register 0: cell c holds byte c if one was written there, else its old value. */
  lemma StoredFromZeroAt(mem: seq<uint8>, bytes: seq<uint8>, c: nat)
    requires |mem| == MemorySize && |bytes| <= MemorySize && c < MemorySize
    ensures Stored(mem, 0, bytes)[c] == if c < |bytes| then bytes[c] else mem[c]
  {
    if c < |bytes| {
      assert Target(0, c) == c;
      StoredWritten(mem, 0, bytes, c);
    } else {
      forall j | 0 <= j < |bytes|
        ensures Target(0, j) != c
      {
        assert Target(0, j) == j;
      }
      StoredUntouched(mem, 0, bytes, c);
    }
  }

  /** Writing at most 256 bytes from register 0 replaces exactly the first |bytes| cells. */
  lemma StoredFromZero(mem: seq<uint8>, bytes: seq<uint8>)
    requires |mem| == MemorySize && |bytes| <= MemorySize
    ensures Stored(mem, 0, bytes) == bytes + mem[|bytes|..]
  {
    var m := Stored(mem, 0, bytes);
    var r := bytes + mem[|bytes|..];
    forall c | 0 <= c < MemorySize
      ensures m[c] == r[c]
    {
      StoredFromZeroAt(mem, bytes, c);
    }
  }

  /**
   The EEPROM device as the write loop sees it: 256 one-byte cells, the log
   of transactions put on the bus, and the number of settle delays waited.
   */
  class Eeprom {
    var cells: array<uint8>
    var bus: seq<Transaction>
    var settleDelays: nat

    ghost predicate Valid()
      reads this
    {
      cells.Length == MemorySize
    }

    constructor (contents: seq<uint8>)
      requires |contents| == MemorySize
      ensures Valid() && fresh(cells)
      ensures cells[..] == contents && bus == [] && settleDelays == 0
    {
      cells := new uint8[MemorySize](c requires 0 <= c < MemorySize => contents[c]);
      bus := [];
      settleDelays := 0;
    }

    /**
     pcaWriteBytes: transaction i writes bytes[i] to register byte(addr + byte(i));
     a failing transaction is returned at once, a successful one is followed by
     a settle delay. `fails(i)` says whether transaction i fails.
     */
    method WriteBytes(addr: uint8, bytes: seq<uint8>, fails: nat -> bool) returns (outcome: Outcome)
      requires Valid()
      modifies this, cells
      ensures Valid() && cells == old(cells)
      ensures var k := FirstFailure(fails, |bytes|, 0);
        && outcome == (if k < |bytes| then Fail(TransactionFailed(k)) else Pass)
        && cells[..] == Stored(old(cells[..]), addr, bytes[..k])
        && bus == old(bus) + Transactions(addr, bytes[..if k < |bytes| then k + 1 else k])
        && settleDelays == old(settleDelays) + k
    {
      ghost var mem := cells[..];
      var i := 0;
      while i < |bytes|
        invariant 0 <= i <= |bytes|
        invariant Valid() && cells == old(cells)
        invariant forall j :: 0 <= j < i ==> !fails(j)
        invariant cells[..] == Stored(mem, addr, bytes[..i])
        invariant bus == old(bus) + Transactions(addr, bytes[..i])
        invariant settleDelays == old(settleDelays) + i
      {
        var register := Register(addr, i);
        assert Transactions(addr, bytes[..i + 1]) == Transactions(addr, bytes[..i]) + [Transaction(register, bytes[i])];
        bus := bus + [Transaction(register, bytes[i])];
        if fails(i) {
          return Fail(TransactionFailed(i));
        }
        assert bytes[..i + 1][..i] == bytes[..i];
        cells[register] := bytes[i];
        settleDelays := settleDelays + 1;
        i := i + 1;
      }
      assert bytes[..i] == bytes;
      return Pass;
    }
  }
}
