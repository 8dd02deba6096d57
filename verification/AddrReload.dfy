/** An address manager that is written and read again. */
module AddrReload {
  import opened AddrBook
  import opened AddrManager
  import opened AddrSerial
  import AddrRoundTrip

  /** Writes a manager and reads it into a new one; the key is drawn on creation and is replaced. */
  method Reload(a: AddrMan, key: nat) returns (b: AddrMan, ok: bool, nLost: int, nLostUnk: int, ghost w: Listing)
    requires a.Valid()
    ensures ok && b.Valid() && b.h == a.h && nLost == 0 && nLostUnk == 0
    ensures AddrRoundTrip.SameUpToIds(a.State(), w, b.State())
  {
    hide AddrBook.Inv;
    hide Serialized;
    hide Unserialized;
    hide Readable;
    hide AddrRoundTrip.SameUpToIds;
    w := AddrRoundTrip.RoundTrip(a.h, a.State());
    var s := a.Serialize();
    b := new AddrMan(a.h, key);
    RefusedIfUnreadable(a.h, s);
    ok, nLost, nLostUnk := b.Unserialize(s, key);
  }

  lemma RefusedIfUnreadable(h: Hashes, s: Saved)
    ensures Unserialized(h, s).Read? ==> Readable(s)
  {
  }
}
