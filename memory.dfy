/**
 * A model of the C allocator as far as ownership is concerned: which buffers are
 * currently allocated (`live`) and the log of every `free` in order (`freed`).
 * Freeing requires the buffer to be live, so a verified caller can neither free a
 * buffer twice nor free one it does not own. Whether a `malloc` succeeds is decided
 * by `oracle`, applied to the running number of allocation attempts.
 */
module Memory {

  class Heap<T(0)> {
    ghost var live: set<array<T>>
    ghost var freed: seq<array<T>>
    const oracle: nat -> bool
    var attempts: nat

    ghost predicate Valid()
      reads this
    {
      (forall k :: 0 <= k < |freed| ==> freed[k] !in live) &&
      (forall j, k :: 0 <= j < k < |freed| ==> freed[j] != freed[k])
    }

    /** Every allocation attempt numbered from `from` up to (not including) `to` is granted. */
    ghost predicate Granted(from: nat, to: nat)
    {
      forall k :: from <= k < to ==> oracle(k)
    }

    /** Consecutive ranges of attempts are all granted exactly when each range is. */
    lemma GrantedSplit(from: nat, mid: nat, to: nat)
      requires from <= mid <= to
      ensures Granted(from, to) <==> Granted(from, mid) && Granted(mid, to)
    {
    }

    constructor (oracle: nat -> bool)
      ensures Valid() && live == {} && freed == [] && this.oracle == oracle && attempts == 0
    {
      this.oracle := oracle;
      live, freed, attempts := {}, [], 0;
    }

    /** `malloc(n)`: a fresh buffer of `n` elements, or NULL when the allocator refuses. */
    method Malloc(n: nat) returns (b: array?<T>)
      requires Valid()
      modifies this
      ensures Valid() && freed == old(freed) && attempts == old(attempts) + 1
      ensures (b != null) == oracle(old(attempts))
      ensures b == null ==> live == old(live)
      ensures b != null ==> fresh(b) && b.Length == n && live == old(live) + {b}
    {
      if oracle(attempts) {
        b := new T[n];
        live := live + {b};
        assert forall k :: 0 <= k < |freed| ==> freed[k] != b;
      } else {
        b := null;
      }
      attempts := attempts + 1;
    }

    /** Takes ownership of a buffer produced by an external decoder with the given contents. */
    method Adopt(contents: seq<T>) returns (b: array<T>)
      requires Valid()
      modifies this
      ensures Valid() && freed == old(freed) && attempts == old(attempts)
      ensures fresh(b) && b[..] == contents && live == old(live) + {b}
    {
      b := new T[|contents|](i requires 0 <= i < |contents| => contents[i]);
      live := live + {b};
      assert forall k :: 0 <= k < |freed| ==> freed[k] != b;
    }

    /** `free(b)` / `stbi_image_free(b)` on a live buffer: it is released exactly once. */
    method Free(b: array<T>)
      requires Valid() && b in live
      modifies this
      ensures Valid() && live == old(live) - {b} && freed == old(freed) + [b]
      ensures attempts == old(attempts)
    {
      live := live - {b};
      freed := freed + [b];
    }
  }
}
