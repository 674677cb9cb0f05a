/** The auditors' heads that the server keeps (src/tree/audit.rs, set_auditor_head). */
module AuditorHeads {
  import opened Digests
  import opened LogMath
  import opened LogTree
  import opened StoredLog
  import opened EarlierRoots

  /** An auditor's public key. */
  type Key = nat

  /** A signature verifies under one key for exactly the size, timestamp and root that it signed. */
  datatype AuditorHead = AuditorHead(treeSize: nat, timestamp: nat, signature: (Key, nat, nat, Digest))

  datatype StoredHead = StoredHead(head: AuditorHead, root: Digest)

  /** The head is signed under one of the keys, over what the server reads for the root at its size. */
  predicate Verified(head: AuditorHead, keys: seq<Key>, leaves: Leaves) {
    && head.treeSize <= |leaves| && head.signature.0 in keys && ServedRoot(leaves, head.treeSize).Ok?
    && head.signature == (head.signature.0, head.treeSize, head.timestamp, ServedRoot(leaves, head.treeSize).value)
  }

  /** It does not go back behind what is stored of the same auditor. */
  predicate Onward(head: AuditorHead, stored: map<Key, StoredHead>) {
    head.signature.0 in stored ==>
      stored[head.signature.0].head.treeSize <= head.treeSize &&
      stored[head.signature.0].head.timestamp <= head.timestamp
  }

  class AuditorHeads {
    const log: StoredLog
    var stored: map<Key, StoredHead>

    constructor (l: StoredLog)
      ensures log == l && stored == map[]
    {
      log, stored := l, map[];
    }

    /** `set_auditor_head`; the consistency proof kept beside a head behind the log is left out. */
    method SetAuditorHead(head: AuditorHead, keys: seq<Key>, current: nat) returns (ok: bool)
      requires log.Valid() && current == |log.entries|
      modifies this
      ensures ok <==>
                Verified(head, keys, LeavesOf(log.entries)) && Onward(head, old(stored)) &&
                (head.treeSize == 0 ==> log.entries == [])
      ensures ok ==>
                var root := ServedRoot(LeavesOf(log.entries), head.treeSize).value;
                stored == old(stored)[head.signature.0 := StoredHead(head, root)]
      ensures !ok ==> stored == old(stored)
    {
      if head.treeSize > current {
        return false;
      }
      var root := log.GetRoot(head.treeSize);
      if root.Err? {
        return false;
      }
      var name := MatchKey(head, keys, root.value);
      if name.None? {
        return false;
      }
      if name.value in stored {
        var existing := stored[name.value].head;
        if head.treeSize < existing.treeSize || head.timestamp < existing.timestamp {
          return false;
        }
      }
      if head.treeSize < current && head.treeSize == 0 {
        return false;
      }
      stored := stored[name.value := StoredHead(head, root.value)];
      return true;
    }
  }

  /** The first key that the signature verifies under. */
  method MatchKey(head: AuditorHead, keys: seq<Key>, root: Digest) returns (key: Option<Key>)
    ensures var signer := head.signature.0;
            key == if signer in keys && head.signature == (signer, head.treeSize, head.timestamp, root)
                   then Some(signer) else None
  {
    for i := 0 to |keys|
      invariant head.signature.0 in keys[..i] ==>
                  head.signature != (head.signature.0, head.treeSize, head.timestamp, root)
    {
      if head.signature == (keys[i], head.treeSize, head.timestamp, root) {
        return Some(keys[i]);
      }
    }
    assert keys[..|keys|] == keys;
    return None;
  }

  /** What an auditor that follows the log signs at a size. */
  function Honest(key: Key, timestamp: nat, leaves: Leaves, n: nat): (head: AuditorHead)
    requires n <= |leaves|
  {
    AuditorHead(n, timestamp, (key, n, timestamp, LogRoot(leaves[..n])))
  }

  /** An honest head verifies if and only if no subtree of its size has been overwritten in the chunks. */
  lemma HonestHeadVerifies(leaves: Leaves, n: nat, key: Key, timestamp: nat, keys: seq<Key>)
    requires AllLeaves(leaves) && 0 < n <= |leaves| && key in keys
    ensures Verified(Honest(key, timestamp, leaves, n), keys, leaves) <==> !Overwritten(n, |leaves|)
  {
    EarlierRoot(leaves, n);
  }

  /** And then only is the root of a head that verifies that of the log at its size. */
  lemma VerifiedSignsRoot(leaves: Leaves, head: AuditorHead, keys: seq<Key>)
    requires AllLeaves(leaves) && 0 < head.treeSize && Verified(head, keys, leaves)
    ensures head.signature.3 == LogRoot(leaves[..head.treeSize]) <==> !Overwritten(head.treeSize, |leaves|)
  {
    EarlierRoot(leaves, head.treeSize);
  }

  /** An auditor that has followed three of four entries is turned away. */
  lemma LaggingHeadRejected(leaves: Leaves, key: Key, timestamp: nat, keys: seq<Key>)
    requires AllLeaves(leaves) && |leaves| == 4
    ensures !Verified(Honest(key, timestamp, leaves, 3), keys, leaves)
  {
    EarlierRoot(leaves, 3);
    assert Rem(3, 2) != 0 && Shift(3, 2) < Shift(4, 2) && Height(3) == 2;
    assert Outgrown(3, 4, 2);
  }
}
