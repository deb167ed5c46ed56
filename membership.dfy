/**
 * The membership filter imported from BloomFilter. Its bits and hashes are
 * not part of this model: what is recorded is the set of (field, value)
 * pairs that were added, and the set of pairs that `lookup` reports. The
 * filter may report pairs that were never added (false positives) but
 * always reports every pair that was (no false negatives).
 */
module Membership {
  import opened Records

  type Key = (string, Value)

  class BloomFilter {
    /** The pairs passed to `add`. */
    ghost var inserted: set<Key>
    /** The pairs for which `lookup` answers true. */
    var positives: set<Key>

    ghost predicate Valid()
      reads this
    {
      inserted <= positives
    }

    /** A new filter has every bit clear. */
    constructor ()
      ensures Valid() && inserted == {} && positives == {}
    {
      inserted := {};
      positives := {};
    }

    predicate Lookup(field: string, value: Value)
      reads this
    {
      (field, value) in positives
    }

    /**
     * Setting the bits of one pair may make other pairs report present as
     * well, so the contract only says the positives grow by at least it.
     */
    method Add(field: string, value: Value)
      requires Valid()
      modifies this
      ensures Valid()
      ensures inserted == old(inserted) + {(field, value)}
      ensures old(positives) + {(field, value)} <= positives
    {
      inserted := inserted + {(field, value)};
      positives := positives + {(field, value)};
    }

    /** No false negatives. */
    lemma NoFalseNegatives(field: string, value: Value)
      requires Valid() && (field, value) in inserted
      ensures Lookup(field, value)
    {
    }
  }
}
