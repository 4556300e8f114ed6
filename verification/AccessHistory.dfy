/** The fixed-capacity ring buffer of access times. */
module AccessHistory {

  // The last `n` elements, or all of them when there are fewer.
  function Last(s: seq<real>, n: nat): (r: seq<real>)
    ensures |r| == if |s| < n then |s| else n
  {
    if |s| < n then s else s[|s| - n..]
  }

  // `count` times one second apart, ending at `last`.
  function UnitSteps(last: real, count: nat): (r: seq<real>)
    ensures |r| == count
  {
    seq(count, i => last - (count as real - 1.0 - i as real))
  }

  // The slot after slot `h` of `n`.
  function Wrapped(h: nat, n: nat): (next: nat)
    requires h < n
    ensures next == if h + 1 < n then h + 1 else 0
  {
    (h + 1) % n
  }

  class AccessRingBuffer {
    const buf: array<real>
    var head: nat
    var len: nat
    // Everything ever pushed.
    ghost var pushed: seq<real>

    // Which push is in slot `j`: before the ring is full the `j`-th; afterwards the slots from
    // `head` on hold the oldest ones.
    ghost function Age(j: nat): int
      reads this
    {
      if len < buf.Length then j
      else |pushed| - len + (if j >= head then j - head else j - head + buf.Length)
    }

    ghost predicate Valid()
      reads this, buf
    {
      && 0 < buf.Length && head < buf.Length && len <= buf.Length && len <= |pushed|
      && (len < buf.Length ==> head == len == |pushed|)
      && (forall j :: 0 <= j < len ==> buf[j] == pushed[Age(j)])
    }

    constructor (capacity: nat)
      requires capacity > 0
      ensures Valid() && fresh(buf) && buf.Length == capacity && pushed == []
    {
      buf := new real[capacity](_ => 0.0);
      head, len := 0, 0;
      pushed := [];
    }

    method Push(timestamp: real)
      requires Valid()
      modifies this, buf
      ensures Valid() && pushed == old(pushed) + [timestamp]
    {
      hide Wrapped;
      buf[head] := timestamp;
      head := Wrapped(head, buf.Length);
      if len < buf.Length {
        len := len + 1;
      }
      pushed := pushed + [timestamp];
    }

    // Oldest first.
    method Timestamps() returns (r: seq<real>)
      requires Valid()
      ensures r == Last(pushed, buf.Length)
    {
      if len == 0 {
        return [];
      }
      if len < buf.Length {
        r := buf[..len];
      } else {
        r := buf[head..] + buf[..head];
      }
    }
  }

  // The history rebuilt from a last access and a count.
  method Bootstrap(lastAccessed: real, accessCount: nat, capacity: nat) returns (b: AccessRingBuffer)
    requires capacity > 0
    ensures fresh(b) && b.Valid() && b.buf.Length == capacity
    ensures b.pushed == UnitSteps(lastAccessed, accessCount)
  {
    b := new AccessRingBuffer(capacity);
    if accessCount == 0 {
      return;
    }
    var count := accessCount as real;
    for i := 0 to accessCount
      invariant b.Valid() && b.buf.Length == capacity && fresh(b) && fresh(b.buf)
      invariant b.pushed == UnitSteps(lastAccessed, accessCount)[..i]
    {
      var t := lastAccessed - (count - 1.0 - i as real);
      b.Push(t);
    }
  }

  // The rebuilt window is strictly increasing, and ends at the last access whatever was evicted.
  lemma BootstrapWindow(lastAccessed: real, accessCount: nat, capacity: nat)
    requires capacity > 0 && accessCount > 0
    ensures var w := Last(UnitSteps(lastAccessed, accessCount), capacity);
      && w != [] && w[|w| - 1] == lastAccessed
      && forall i, j :: 0 <= i < j < |w| ==> w[j] - w[i] == (j - i) as real
  {
  }

  // Whatever is pushed afterwards, only the last `n` of the earlier pushes can still show: those
  // evicted before never come back.
  lemma OnlyWindowMatters(s: seq<real>, t: seq<real>, n: nat)
    ensures Last(s + t, n) == Last(Last(s, n) + t, n)
  {
  }
}
