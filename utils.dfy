/**
 * The helpers of utils.h: a read loop that retries interrupted reads and
 * accumulates a byte count, and the range checks around strtol/strtoll.
 * The kernel's answers to read() and strtol's parse are inputs.
 */
module Utils {

  const ENOENT: nat := 2
  const EINTR: nat := 4
  const EAGAIN: nat := 11
  const EINVAL: nat := 22
  const ERANGE: nat := 34

  const UINT16_MAX: int := 0xffff
  const UINT_MAX: int := 0xffff_ffff

  /** An errno value: failing calls always set a positive one. */
  type Errno = e: nat | e > 0 witness EINTR

  /** What one read() call returned: a byte count (0 at end of file) or
      -1 with errno set. */
  datatype ReadOutcome = Read(n: nat) | ReadError(errno: Errno)

  /** The read() outcomes rs, consumed in order by read_safe's loop from a
      running total, are enough for the loop to finish, and every read
      returns at most the count it was asked for (count - total). */
  predicate Decided(count: int, total: int, rs: seq<ReadOutcome>)
    decreases |rs|
  {
    total >= count ||
    (rs != [] &&
     match rs[0]
     case Read(n) => n <= count - total && (n == 0 || Decided(count, total + n, rs[1..]))
     case ReadError(e) => e != EINTR || Decided(count, total, rs[1..]))
  }

  /** What read_safe returns after consuming rs from the running total. */
  function ReadSafeSpec(count: int, total: int, rs: seq<ReadOutcome>): int
    requires Decided(count, total, rs)
    decreases |rs|
  {
    if total >= count then total
    else
      match rs[0]
      case Read(n) => if n == 0 then total else ReadSafeSpec(count, total + n, rs[1..])
      case ReadError(e) =>
        if e == EINTR then ReadSafeSpec(count, total, rs[1..])
        else if e == EAGAIN then total
        else -(e as int)
  }

  /** read_safe: read up to count bytes, retrying on EINTR. */
  method ReadSafe(count: int, rs: seq<ReadOutcome>) returns (r: int)
    requires Decided(count, 0, rs)
    ensures r == ReadSafeSpec(count, 0, rs)
  {
    var total := 0;
    var k := 0;
    while total < count
      invariant 0 <= k <= |rs| && total >= 0
      invariant Decided(count, total, rs[k..])
      invariant ReadSafeSpec(count, total, rs[k..]) == ReadSafeSpec(count, 0, rs)
      decreases |rs| - k
    {
      assert rs[k..][1..] == rs[k + 1..];
      match rs[k]
      case ReadError(e) =>
        if e == EINTR {
          k := k + 1;
          continue;
        }
        r := if e == EAGAIN then total else -(e as int);
        return;
      case Read(n) =>
        if n == 0 {
          break;
        }
        total := total + n;
        k := k + 1;
    }
    r := total;
  }

  /** read_safe returns either a byte count that is at least what was
      already read and at most count, or the negated errno of a failed read
      that was neither EINTR nor EAGAIN. */
  lemma {:induction false} ReadSafeResult(count: int, total: int, rs: seq<ReadOutcome>)
    requires 0 <= total < count
    requires Decided(count, total, rs)
    ensures var r := ReadSafeSpec(count, total, rs);
      (total <= r <= count) ||
      (r < 0 && ReadError(-r) in rs && -r != EINTR && -r != EAGAIN)
    decreases |rs|
  {
    var r := ReadSafeSpec(count, total, rs);
    match rs[0]
    case Read(n) =>
      if n != 0 && total + n < count {
        ReadSafeResult(count, total + n, rs[1..]);
        if r < 0 {
          assert ReadError(-r) in rs[1..];
          assert rs == [rs[0]] + rs[1..];
        }
      }
    case ReadError(e) =>
      if e == EINTR {
        ReadSafeResult(count, total, rs[1..]);
        if r < 0 {
          assert ReadError(-r) in rs[1..];
          assert rs == [rs[0]] + rs[1..];
        }
      } else {
        assert rs[0] in rs;
      }
  }

  /** The single steps of the loop: an interrupted read is retried with the
      total unchanged, EAGAIN returns what was read so far, another error
      returns -errno, and an empty read (end of file) returns the total. */
  lemma ReadSafeSteps(count: int, total: int, rs: seq<ReadOutcome>, e: Errno)
    requires 0 <= total < count && Decided(count, total, rs)
    ensures Decided(count, total, [ReadError(EINTR)] + rs)
    ensures ReadSafeSpec(count, total, [ReadError(EINTR)] + rs) == ReadSafeSpec(count, total, rs)
    ensures ReadSafeSpec(count, total, [ReadError(EAGAIN)] + rs) == total
    ensures e != EINTR && e != EAGAIN ==> ReadSafeSpec(count, total, [ReadError(e)] + rs) == -(e as int)
    ensures ReadSafeSpec(count, total, [Read(0)] + rs) == total
  {
    assert ([ReadError(EINTR)] + rs)[1..] == rs;
  }

  /** strtol's result as far as the callers look at it: the value and
      whether the whole string was consumed (*endptr == 0). */
  datatype Strtol = Strtol(value: int, consumedAll: bool)

  /** A converted value together with the errno the conversion set. */
  datatype Converted = Converted(value: int, errno: nat)

  /** strtou16: accept a fully consumed number in [0, 0xffff]. */
  function StrToU16(p: Strtol): (r: Converted)
    ensures 0 <= r.value <= UINT16_MAX
    ensures r.errno == 0 <==> p.consumedAll && 0 <= p.value <= UINT16_MAX
    ensures r.errno == 0 ==> r.value == p.value
    ensures r.errno != 0 ==> r.value == 0
    ensures !p.consumedAll ==> r.errno == EINVAL
    ensures p.consumedAll && !(0 <= p.value <= UINT16_MAX) ==> r.errno == ERANGE
  {
    if !p.consumedAll then Converted(0, EINVAL)
    else if p.value < 0 || p.value > UINT16_MAX then Converted(0, ERANGE)
    else Converted(p.value, 0)
  }

  /** strtoint: the same checks with the range [0, UINT_MAX]. */
  function StrToInt(p: Strtol): (r: Converted)
    ensures 0 <= r.value <= UINT_MAX
    ensures r.errno == 0 <==> p.consumedAll && 0 <= p.value <= UINT_MAX
    ensures r.errno == 0 ==> r.value == p.value
    ensures r.errno != 0 ==> r.value == 0
    ensures !p.consumedAll ==> r.errno == EINVAL
    ensures p.consumedAll && !(0 <= p.value <= UINT_MAX) ==> r.errno == ERANGE
  {
    if !p.consumedAll then Converted(0, EINVAL)
    else if p.value < 0 || p.value > UINT_MAX then Converted(0, ERANGE)
    else Converted(p.value, 0)
  }
}
