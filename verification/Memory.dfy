/**
 * What the driver can learn about virtual memory.
 *
 * MmCopyMemory is an oracle. In its weakest form every call answers for itself, so
 * memory may change between two calls. In its strong form the calls are served by
 * one memory whose pages are either readable or not.
 */
module Memory {
  import opened Base

  /** A copy reports a status and the prefix that it transferred. */
  datatype CopyResult = CopyResult(ok: bool, bytes: seq<byte>)

  /** The answer to the copy made at a given tick, from an address, for a length. */
  type CopyOracle = f: (nat, nat, nat) -> CopyResult
    | forall t: nat, a: nat, n: nat :: |f(t, a, n).bytes| <= n
    witness (t: nat, a: nat, n: nat) => CopyResult(false, [])

  /** Known bytes of a range: None where nothing was read. */
  type View = seq<Option<byte>>

  function Somes(s: seq<byte>): (v: View)
    ensures |v| == |s| && forall i :: 0 <= i < |s| ==> v[i] == Some(s[i])
  {
    seq(|s|, i requires 0 <= i < |s| => Some(s[i]))
  }

  function Nones(n: nat): (v: View)
    ensures |v| == n && forall i :: 0 <= i < n ==> v[i] == None
  {
    seq(n, i => None)
  }

  /** Memory that does not change, readable page by page. */
  datatype PageMemory = PageMemory(content: nat -> byte, mapped: nat -> bool) {

    predicate Readable(a: nat) {
      a < TWO_64 && mapped(a / PAGE_SIZE)
    }

    predicate ReadableAt(base: nat, x: nat) {
      Readable(base + x)
    }

    ghost predicate AllReadable(base: nat, from: nat, to: nat) {
      forall x :: base + from <= x < base + to ==> Readable(x)
    }

    ghost predicate NoneReadable(base: nat, from: nat, to: nat) {
      forall x :: base + from <= x < base + to ==> !Readable(x)
    }

    /** Length of the longest readable prefix of [a, a + n). */
    function ReadableRun(a: nat, n: nat): (k: nat)
      ensures k <= n
      ensures forall x :: a <= x < a + k ==> Readable(x)
      ensures k < n ==> !Readable(a + k)
      decreases n
    {
      if n == 0 || !Readable(a) then 0 else 1 + ReadableRun(a + 1, n - 1)
    }

    function Bytes(a: nat, n: nat): (s: seq<byte>)
      ensures |s| == n && forall i :: 0 <= i < n ==> s[i] == content(a + i)
    {
      seq<byte>(n, i requires 0 <= i < n => content(a + i))
    }

    function At(a: nat): Option<byte> {
      if Readable(a) then Some(content(a)) else None
    }

    /** Everything there is to know about [base + from, base + to). */
    function Truth(base: nat, from: nat, to: nat): (v: View)
      ensures |v| == if from <= to then to - from else 0
      ensures forall i :: 0 <= i < |v| ==> v[i] == At(base + from + i)
    {
      if from <= to then seq(to - from, i requires 0 <= i < to - from => At(base + from + i)) else []
    }

    /** Every copy transfers the longest readable prefix and succeeds iff that is everything. */
    ghost predicate Serves(copy: CopyOracle) {
      forall t: nat, a: nat, n: nat ::
        var k := ReadableRun(a, n);
        copy(t, a, n) == CopyResult(k == n, Bytes(a, k))
    }

    lemma Served(copy: CopyOracle, t: nat, a: nat, n: nat)
      requires Serves(copy)
      ensures var k := ReadableRun(a, n); copy(t, a, n) == CopyResult(k == n, Bytes(a, k))
    {
    }

    /** Every memory is served by some copy oracle. */
    function Oracle(): (f: CopyOracle)
      ensures Serves(f)
    {
      (t: nat, a: nat, n: nat) => var k := ReadableRun(a, n); CopyResult(k == n, Bytes(a, k))
    }

    /** The same memory with one byte written. */
    function Poke(a: nat, v: byte): PageMemory {
      this.(content := (x: nat) => var b: byte := if x == a then v else content(x); b)
    }

    /** An unreadable address makes the rest of its page unreadable. */
    lemma RestOfPageUnreadable(a: u64)
      requires !Readable(a)
      ensures forall x :: a <= x < (if NextPage(a) == 0 then TWO_64 else NextPage(a)) ==> !Readable(x)
    {
      forall x | a <= x < (if NextPage(a) == 0 then TWO_64 else NextPage(a)) ensures !Readable(x) {
        SamePageUpToNext(a, x);
      }
    }
  }

  /** Copies `length` bytes to destination[start..], without asking for any if there are none; what lies behind the copied prefix is up to the copy. */
  method CopyFromVirtualAddress(copy: CopyOracle, clock: nat, address: nat,
                                destination: array<byte>, start: nat, length: nat)
    returns (ok: bool, copied: nat)
    requires start + length <= destination.Length
    modifies destination
    ensures if length == 0 then ok && copied == 0 else
            var r := copy(clock, address, length);
            && ok == r.ok
            && copied == |r.bytes|
            && destination[start..start + copied] == r.bytes
    ensures forall i :: 0 <= i < destination.Length && !(start <= i < start + length) ==> destination[i] == old(destination[i])
  {
    if length == 0 {
      return true, 0;
    }
    var r := copy(clock, address, length);
    ok, copied := r.ok, |r.bytes|;
    forall i | 0 <= i < copied {
      destination[start + i] := r.bytes[i];
    }
  }
}
