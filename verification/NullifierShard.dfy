/** programs/b402-pool/src/util.rs and state.rs: the sorted shard of spent nullifiers. */
module NullifierShard {
  import opened Wrappers

  /** 32 bytes, by the integer they spell most significant byte first, which is their order as arrays. */
  type Nullifier = nat

  const MAX_NULLIFIERS_PER_SHARD: nat := 300

  datatype PoolError = AccountSizeMismatch | NullifierAlreadySpent

  ghost predicate Ascending(s: seq<Nullifier>) {
    forall i, j :: 0 <= i < j < |s| ==> s[i] < s[j]
  }

  lemma LastIsTop(s: seq<Nullifier>, n: Nullifier)
    requires Ascending(s) && s != []
    ensures n in s ==> n <= s[|s| - 1]
    ensures n in s[..|s| - 1] <==> n in s && n != s[|s| - 1]
  {
    assert s == s[..|s| - 1] + [s[|s| - 1]];
  }

  ghost predicate HoldTheSame(s: seq<Nullifier>, t: seq<Nullifier>) {
    forall n :: n in s <==> n in t
  }

  lemma SameTop(s: seq<Nullifier>, t: seq<Nullifier>)
    requires Ascending(s) && Ascending(t) && HoldTheSame(s, t) && s != []
    ensures t != [] && t[|t| - 1] == s[|s| - 1]
  {
    assert s[|s| - 1] in t;
    LastIsTop(s, t[|t| - 1]);
    LastIsTop(t, s[|s| - 1]);
  }

  lemma SameFronts(s: seq<Nullifier>, t: seq<Nullifier>)
    requires Ascending(s) && Ascending(t) && HoldTheSame(s, t) && s != [] && t != [] && t[|t| - 1] == s[|s| - 1]
    ensures HoldTheSame(s[..|s| - 1], t[..|t| - 1])
  {
    var front, front' := s[..|s| - 1], t[..|t| - 1];
    forall n
      ensures n in front <==> n in front'
    {
      LastIsTop(s, n);
      LastIsTop(t, n);
    }
  }

  /** A strictly ascending list is determined by what it holds. */
  lemma {:induction false} AscendingUnique(s: seq<Nullifier>, t: seq<Nullifier>)
    requires Ascending(s) && Ascending(t) && HoldTheSame(s, t)
    ensures s == t
  {
    if s == [] {
      if t != [] {
        SameTop(t, s);
      }
    } else {
      SameTop(s, t);
      SameFronts(s, t);
      AscendingUnique(s[..|s| - 1], t[..|t| - 1]);
      assert s == s[..|s| - 1] + [s[|s| - 1]] && t == t[..|t| - 1] + [t[|t| - 1]];
    }
  }

  class NullifierShard {
    var count: nat
    const nullifiers: array<Nullifier>
    /** Every nullifier accepted so far, in the order they came. */
    ghost var accepted: seq<Nullifier>

    ghost predicate Valid()
      reads this, nullifiers
    {
      && nullifiers.Length == MAX_NULLIFIERS_PER_SHARD
      && count == |accepted| <= MAX_NULLIFIERS_PER_SHARD
      && Ascending(nullifiers[..count])
      && (forall i, j :: 0 <= i < j < |accepted| ==> accepted[i] != accepted[j])
      && HoldTheSame(accepted, nullifiers[..count])
    }

    constructor ()
      ensures Valid() && accepted == [] && fresh(nullifiers)
    {
      count, accepted := 0, [];
      nullifiers := new Nullifier[MAX_NULLIFIERS_PER_SHARD](_ => 0);
    }

    /** slice::binary_search: the nullifier's position, or where it would have to go. */
    method BinarySearch(n: Nullifier) returns (found: bool, pos: nat)
      requires Valid()
      ensures pos <= count
      ensures found <==> n in nullifiers[..count]
      ensures found ==> pos < count && nullifiers[pos] == n
      ensures !found ==> (forall i :: 0 <= i < pos ==> nullifiers[i] < n) && forall i :: pos <= i < count ==> n < nullifiers[i]
    {
      var lo, hi := 0, count;
      ghost var view := nullifiers[..count];
      while lo < hi
        invariant lo <= hi <= count
        invariant forall i :: 0 <= i < lo ==> view[i] < n
        invariant forall i :: hi <= i < count ==> n < view[i]
      {
        var mid := (lo + hi) / 2;
        assert view[mid] == nullifiers[mid];
        if nullifiers[mid] == n {
          return true, mid;
        } else if nullifiers[mid] < n {
          lo := mid + 1;
        } else {
          hi := mid;
        }
      }
      return false, lo;
    }

    /**
     nullifier_insert: a full shard refuses everything, otherwise a nullifier is accepted exactly when it
     has not been before.
     */
    method Insert(n: Nullifier) returns (r: Result<(), PoolError>)
      requires Valid()
      modifies this, nullifiers
      ensures Valid()
      ensures r == if |old(accepted)| == 300 then Failure(AccountSizeMismatch)
                   else if n in old(accepted) then Failure(NullifierAlreadySpent)
                   else Success(())
      ensures accepted == if r.Success? then old(accepted) + [n] else old(accepted)
      ensures r.Failure? ==> nullifiers[..] == old(nullifiers[..])
    {
      r := Success(());
      if count >= MAX_NULLIFIERS_PER_SHARD {
        return Failure(AccountSizeMismatch);
      }
      var found, pos := BinarySearch(n);
      if found {
        return Failure(NullifierAlreadySpent);
      }
      ghost var before := nullifiers[..count];
      Shift(pos);
      nullifiers[pos] := n;
      count, accepted := count + 1, accepted + [n];
      ghost var after := before[..pos] + [n] + before[pos..];
      forall k | 0 <= k < count
        ensures nullifiers[k] == after[k]
      {
      }
      assert nullifiers[..count] == after;
      InsertedAscending(before, pos, n);
      InsertedHolds(old(accepted), before, pos, n);
    }

    /** Makes room at pos, from the top down. */
    method Shift(pos: nat)
      requires count < nullifiers.Length && pos <= count
      modifies nullifiers
      ensures forall k :: 0 <= k < pos ==> nullifiers[k] == old(nullifiers[k])
      ensures forall k :: pos < k <= count ==> nullifiers[k] == old(nullifiers[k - 1])
    {
      var i := count;
      while i > pos
        invariant pos <= i <= count
        invariant forall k :: 0 <= k <= i && k < count ==> nullifiers[k] == old(nullifiers[k])
        invariant forall k :: i < k <= count ==> nullifiers[k] == old(nullifiers[k - 1])
      {
        i := i - 1;
        nullifiers[i + 1] := nullifiers[i];
      }
    }

    /** Two shards that accepted the same nullifiers, in any order, hold the same list. */
    lemma OrderDoesNotMatter(other: NullifierShard)
      requires Valid() && other.Valid()
      requires forall n :: n in accepted <==> n in other.accepted
      ensures nullifiers[..count] == other.nullifiers[..other.count]
    {
      AscendingUnique(nullifiers[..count], other.nullifiers[..other.count]);
    }
  }

  lemma InsertedHolds(accepted: seq<Nullifier>, before: seq<Nullifier>, pos: nat, n: Nullifier)
    requires HoldTheSame(accepted, before) && pos <= |before|
    ensures HoldTheSame(accepted + [n], before[..pos] + [n] + before[pos..])
  {
    assert before == before[..pos] + before[pos..];
  }

  lemma InsertedAscending(s: seq<Nullifier>, pos: nat, n: Nullifier)
    requires Ascending(s) && pos <= |s|
    requires forall i :: 0 <= i < pos ==> s[i] < n
    requires forall i :: pos <= i < |s| ==> n < s[i]
    ensures Ascending(s[..pos] + [n] + s[pos..])
  {
  }
}
