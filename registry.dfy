/** The copy-on-write registry shared by the adapters: an immutable snapshot that is
    published by swapping one reference, and the updates other threads may publish. */
module Registry {

  /** One published list. Its items are fixed when it is built, so a snapshot that
      somebody has read can never change under that reader. */
  class Snapshot<T> {
    const items: seq<T>

    constructor (items: seq<T>)
      ensures this.items == items
    {
      this.items := items;
    }
  }

  /** An update another thread publishes: it reads the current list and installs its
      own rebuilt copy. */
  type Update<!T> = seq<T> -> seq<T>

  /** The list after the given updates of other threads were published in order. */
  function Interfere<T>(s: seq<T>, updates: seq<Update<T>>): seq<T>
  {
    if updates == [] then s
    else updates[|updates| - 1](Interfere(s, updates[..|updates| - 1]))
  }

  /** Other threads that each subscribe one source. */
  function Appends<T>(xs: seq<T>): (us: seq<Update<T>>)
    ensures |us| == |xs|
  {
    seq(|xs|, i requires 0 <= i < |xs| => (l: seq<T>) => l + [xs[i]])
  }

  /** Concurrent appends are never lost: whatever the interleaving of retries, the list
      ends up holding every appended element, in the order the swaps succeeded. */
  lemma {:induction false} AppendsAllKept<T>(s: seq<T>, xs: seq<T>)
    ensures Interfere(s, Appends(xs)) == s + xs
  {
    if xs != [] {
      var n := |xs| - 1;
      assert Appends(xs)[..n] == Appends(xs[..n]);
      AppendsAllKept(s, xs[..n]);
      assert xs == xs[..n] + [xs[n]];
    }
  }
}
