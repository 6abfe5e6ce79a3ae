/** The write-behind store of directory digests: a pending overlay over persistent rows. */
module DirectoryStores {
  import opened Base

  class DirectoryStore {
    var rows: map<Path, Digest>
    var pending: map<Path, Digest>

    /** What readers see: pending entries win over persistent rows. */
    ghost function View(): map<Path, Digest>
      reads this
    {
      rows + pending
    }

    constructor (persisted: map<Path, Digest>)
      ensures rows == persisted && pending == map[] && View() == persisted
    {
      rows, pending := persisted, map[];
    }

    method Get(rel: Path) returns (digest: Option<Digest>)
      ensures digest == if rel in View() then Some(View()[rel]) else None
    {
      if rel in pending {
        digest := Some(pending[rel]);
      } else if rel in rows {
        digest := Some(rows[rel]);
      } else {
        digest := None;
      }
    }

    method Put(rel: Path, digest: Digest)
      modifies this`pending
      ensures View() == old(View())[rel := digest]
      ensures pending == old(pending)[rel := digest]
    {
      pending := pending[rel := digest];
    }

    /** One transaction: the view becomes persistent and does not change. */
    method Flush() returns (written: nat)
      modifies this
      ensures rows == old(View()) && pending == map[] && View() == old(View())
      ensures written == |old(pending)|
    {
      written := |pending|;
      rows, pending := rows + pending, map[];
    }

    method DiscardPending()
      modifies this`pending
      ensures pending == map[] && View() == rows
    {
      pending := map[];
    }
  }
}
