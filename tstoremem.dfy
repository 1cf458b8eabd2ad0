/**
 * The in-memory key book of a thread store: for every (thread, peer) pair it
 * keeps at most one public key, private key, read key and follow key, each
 * kind in its own two-level map thread -> peer -> key.
 *
 * The reader/writer lock that serialises the methods is not modelled: every
 * method is one atomic step.
 */
module TStoreMem {
  import opened Wrappers
  import opened Identity

  /** The shape of each of the four maps: thread -> peer -> key. */
  type KeyMap<V> = map<ThreadID, map<PeerID, V>>

  /** The errors a rejected write returns, one per check. */
  datatype KeyError =
    | IDMismatchPublicKey
    | NilPrivateKey
    | IDMismatchPrivateKey
    | NilReadKey
    | NilFollowKey

  /** The text of each error, as the writers' `error` values carry it. */
  function Message(e: KeyError): (r: string)
  {
    match e
    case IDMismatchPublicKey => "ID does not match PublicKey"
    case NilPrivateKey => "sk is nil (PrivKey)"
    case IDMismatchPrivateKey => "ID does not match PrivateKey"
    case NilReadKey => "key is nil (ReadKey)"
    case NilFollowKey => "key is nil (FollowKey)"
  }

  /** The text alone tells which check rejected a write. */
  lemma MessagesDistinct(e: KeyError, e': KeyError)
    ensures Message(e) == Message(e') <==> e == e'
  {
  }

  // ---------------------------------------------------------------------
  // Two-level maps

  /** The key stored for (t, p), or `None` when the thread or the peer is missing. */
  function GetKey<V>(m: KeyMap<V>, t: ThreadID, p: PeerID): (r: Option<V>)
    ensures r.Some? <==> t in m && p in m[t]
    ensures r.Some? ==> r.value == m[t][p]
  {
    if t in m && p in m[t] then Some(m[t][p]) else None
  }

  /** No thread maps to an empty inner map. */
  ghost predicate InnerNonEmpty<V>(m: KeyMap<V>)
  {
    forall t :: t in m ==> |m[t]| > 0
  }

  /**
   * The map after storing `v` at (t, p), creating the inner map for `t` when
   * it is missing; only `t` can join the thread domain.
   */
  function Put<V>(m: KeyMap<V>, t: ThreadID, p: PeerID, v: V): (r: KeyMap<V>)
    ensures r.Keys == m.Keys + {t}
  {
    var inner := if t in m then m[t] else map[];
    m[t := inner[p := v]]
  }

  /** After `Put`, (t, p) yields `v` and every other entry is as before. */
  lemma PutFrame<V>(m: KeyMap<V>, t: ThreadID, p: PeerID, v: V)
    ensures GetKey(Put(m, t, p, v), t, p) == Some(v)
    ensures forall t', p' :: t' != t || p' != p ==> GetKey(Put(m, t, p, v), t', p') == GetKey(m, t', p')
  {
  }

  /** `Put` never leaves an empty inner map behind. */
  lemma PutKeepsNonEmpty<V>(m: KeyMap<V>, t: ThreadID, p: PeerID, v: V)
    requires InnerNonEmpty(m)
    ensures InnerNonEmpty(Put(m, t, p, v))
  {
    var r := Put(m, t, p, v);
    assert p in r[t];
    forall t' | t' in r ensures |r[t']| > 0 {
      if t' != t {
        assert r[t'] == m[t'];
      } else {
        assert p in r[t'];
      }
    }
  }

  /**
   * A public key may be stored for `p` when it was verified against `p`, or
   * when it was extracted from `p` itself.
   */
  predicate PubKeyBound(c: Checks, p: PeerID, pk: PubKey)
  {
    c.matchesPublicKey(p, pk) || c.extractPublicKey(p) == Some(pk)
  }

  /** Every stored public key is bound to its peer. */
  ghost predicate PubKeysBound(c: Checks, m: KeyMap<PubKey>)
  {
    forall t, p :: GetKey(m, t, p).Some? ==> PubKeyBound(c, p, GetKey(m, t, p).value)
  }

  /** Every stored private key matches its peer. */
  ghost predicate PrivKeysBound(c: Checks, m: KeyMap<PrivKey>)
  {
    forall t, p :: GetKey(m, t, p).Some? ==> c.matchesPrivateKey(p, GetKey(m, t, p).value)
  }

  /** Storing a public key bound to its peer keeps every stored public key bound. */
  lemma PutKeepsPubKeysBound(c: Checks, m: KeyMap<PubKey>, t: ThreadID, p: PeerID, pk: PubKey)
    requires PubKeysBound(c, m) && PubKeyBound(c, p, pk)
    ensures PubKeysBound(c, Put(m, t, p, pk))
  {
    PutFrame(m, t, p, pk);
  }

  /** Storing a private key that matches its peer keeps every stored private key matching. */
  lemma PutKeepsPrivKeysBound(c: Checks, m: KeyMap<PrivKey>, t: ThreadID, p: PeerID, sk: PrivKey)
    requires PrivKeysBound(c, m) && c.matchesPrivateKey(p, sk)
    ensures PrivKeysBound(c, Put(m, t, p, sk))
  {
    PutFrame(m, t, p, sk);
  }

  /** A later write to the same entry replaces the earlier one, leaving no trace of it. */
  lemma PutOverwrites<V>(m: KeyMap<V>, t: ThreadID, p: PeerID, v: V, w: V)
    ensures Put(Put(m, t, p, v), t, p, w) == Put(m, t, p, w)
  {
    var once, twice := Put(m, t, p, w), Put(Put(m, t, p, v), t, p, w);
    assert twice.Keys == once.Keys;
    forall t' | t' in once ensures twice[t'] == once[t'] {
      forall p' ensures (p' in twice[t']) == (p' in once[t']) {
        assert GetKey(twice, t', p') == GetKey(once, t', p');
      }
      forall p' | p' in once[t'] ensures twice[t'][p'] == once[t'][p'] {
        assert GetKey(twice, t', p') == GetKey(once, t', p');
      }
    }
  }

  /** A thread present in a map without empty inner maps holds at least one key. */
  lemma PresentThreadHoldsKey<V>(m: KeyMap<V>, t: ThreadID)
    requires InnerNonEmpty(m)
    ensures t in m <==> exists p :: GetKey(m, t, p).Some?
  {
    if t in m {
      var p :| p in m[t];
      assert GetKey(m, t, p).Some?;
    }
  }

  /** The peers under `t` that hold a public or a private key. */
  function KeyedPeers<A, B>(pks: KeyMap<A>, sks: KeyMap<B>, t: ThreadID): (r: set<PeerID>)
    ensures forall p :: p in r <==> GetKey(pks, t, p).Some? || GetKey(sks, t, p).Some?
  {
    PeersUnder(pks, t) + PeersUnder(sks, t)
  }

  /**
   * A thread is in the domain of the public- or private-key map exactly when
   * some peer under it holds a public or a private key.
   */
  lemma KeyedThreadsHoldKeys<A, B>(pks: KeyMap<A>, sks: KeyMap<B>, t: ThreadID)
    requires InnerNonEmpty(pks) && InnerNonEmpty(sks)
    ensures t in pks.Keys + sks.Keys <==> KeyedPeers(pks, sks, t) != {}
  {
    PresentThreadHoldsKey(pks, t);
    PresentThreadHoldsKey(sks, t);
    if t in pks.Keys + sks.Keys {
      var p :| GetKey(pks, t, p).Some? || GetKey(sks, t, p).Some?;
      assert p in KeyedPeers(pks, sks, t);
    }
  }

  /** The peers under `t` in one map. */
  function PeersUnder<V>(m: KeyMap<V>, t: ThreadID): (r: set<PeerID>)
  {
    if t in m then m[t].Keys else {}
  }

  /** Storing a key for (t, p) adds exactly `p` to the peers under `t`, and nothing elsewhere. */
  lemma PeersUnderAfterPut<V>(m: KeyMap<V>, t: ThreadID, p: PeerID, v: V, t': ThreadID)
    ensures PeersUnder(Put(m, t, p, v), t') == PeersUnder(m, t') + (if t' == t then {p} else {})
  {
    var after := Put(m, t, p, v);
    PutFrame(m, t, p, v);
    forall q ensures q in PeersUnder(after, t') <==> q in PeersUnder(m, t') + (if t' == t then {p} else {}) {
      assert GetKey(after, t', q) == if t' == t && q == p then Some(v) else GetKey(m, t', q);
    }
  }

  /**
   * Storing a public or a private key for (t, p) adds exactly `p` to the
   * peers with keys under `t`, and nothing under any other thread.
   */
  lemma KeyedPeersAfterPut<A, B>(pks: KeyMap<A>, sks: KeyMap<B>, t: ThreadID, p: PeerID, a: A, b: B, t': ThreadID)
    ensures KeyedPeers(Put(pks, t, p, a), sks, t') == KeyedPeers(pks, sks, t') + (if t' == t then {p} else {})
    ensures KeyedPeers(pks, Put(sks, t, p, b), t') == KeyedPeers(pks, sks, t') + (if t' == t then {p} else {})
  {
    PeersUnderAfterPut(pks, t, p, a, t');
    PeersUnderAfterPut(sks, t, p, b, t');
  }

  // ---------------------------------------------------------------------
  // Sets built by iterating over a map, and slices built from a set

  /** The elements of a sequence. */
  ghost function Elements<T>(xs: seq<T>): (r: set<T>)
  {
    set x | x in xs
  }

  ghost predicate NoDuplicates<T>(xs: seq<T>)
  {
    forall i, j :: 0 <= i < j < |xs| ==> xs[i] != xs[j]
  }

  /** Adds every key of `m` to the set `acc`, one key at a time. */
  method InsertKeys<K, V>(acc: set<K>, m: map<K, V>) returns (r: set<K>)
    ensures r == acc + m.Keys
  {
    r := acc;
    var rest := m.Keys;
    while rest != {}
      invariant rest <= m.Keys
      invariant r == acc + (m.Keys - rest)
      decreases rest
    {
      var k :| k in rest;
      r := r + {k};
      rest := rest - {k};
    }
  }

  /** Appends every element of `s` to an initially empty slice, in no particular order. */
  method Enumerate<T>(s: set<T>) returns (xs: seq<T>)
    ensures NoDuplicates(xs)
    ensures Elements(xs) == s
  {
    xs := [];
    var rest := s;
    while rest != {}
      invariant rest <= s
      invariant NoDuplicates(xs)
      invariant Elements(xs) == s - rest
      decreases rest
    {
      var x :| x in rest;
      assert Elements(xs + [x]) == Elements(xs) + {x};
      xs := xs + [x];
      rest := rest - {x};
    }
  }

  // ---------------------------------------------------------------------
  // The key book

  class MemoryKeyBook {
    /** The identity library the book checks peers and keys with. */
    const checks: Checks

    var pks: KeyMap<PubKey>
    var sks: KeyMap<PrivKey>
    var rks: KeyMap<Bytes>
    var fks: KeyMap<Bytes>

    /**
     * The book's invariant: inner maps are created only to be written to, so
     * none is empty; every stored public key is bound to its peer, and every
     * stored private key matches its peer.
     */
    ghost predicate Valid()
      reads this
    {
      && InnerNonEmpty(pks) && InnerNonEmpty(sks) && InnerNonEmpty(rks) && InnerNonEmpty(fks)
      && PubKeysBound(checks, pks) && PrivKeysBound(checks, sks)
    }

    /** A new, empty key book. */
    constructor (checks: Checks)
      ensures Valid()
      ensures this.checks == checks
      ensures pks == map[] && sks == map[] && rks == map[] && fks == map[]
    {
      this.checks := checks;
      pks, sks, rks, fks := map[], map[], map[], map[];
    }

    /** The stored public key for (t, p), if any; never fails. */
    function GetPubKey(t: ThreadID, p: PeerID): (r: Option<PubKey>)
      reads this
      ensures r.Some? <==> t in pks && p in pks[t]
      ensures r.Some? ==> r.value == pks[t][p]
      ensures Valid() && r.Some? ==> PubKeyBound(checks, p, r.value)
    {
      GetKey(pks, t, p)
    }

    /** The stored private key for (t, p), or `None`; never fails. */
    function LogPrivKey(t: ThreadID, p: PeerID): (r: Option<PrivKey>)
      reads this
      ensures r.Some? <==> t in sks && p in sks[t]
      ensures r.Some? ==> r.value == sks[t][p]
      ensures Valid() && r.Some? ==> checks.matchesPrivateKey(p, r.value)
    {
      GetKey(sks, t, p)
    }

    /** The stored read key for (t, p), or `None`; never fails. */
    function LogReadKey(t: ThreadID, p: PeerID): (r: Option<Bytes>)
      reads this
      ensures r.Some? <==> t in rks && p in rks[t]
      ensures r.Some? ==> r.value == rks[t][p]
    {
      GetKey(rks, t, p)
    }

    /** The stored follow key for (t, p), or `None`; never fails. */
    function LogFollowKey(t: ThreadID, p: PeerID): (r: Option<Bytes>)
      reads this
      ensures r.Some? <==> t in fks && p in fks[t]
      ensures r.Some? ==> r.value == fks[t][p]
    {
      GetKey(fks, t, p)
    }

    /** The peers under `t` with a public or a private key, each once. */
    method LogsWithKeys(t: ThreadID) returns (pids: seq<PeerID>)
      ensures NoDuplicates(pids)
      ensures Elements(pids) == KeyedPeers(pks, sks, t)
    {
      var ps: set<PeerID> := {};
      if t in pks {
        ps := InsertKeys(ps, pks[t]);
      }
      if t in sks {
        ps := InsertKeys(ps, sks[t]);
      }
      pids := Enumerate(ps);
    }

    /**
     * The threads in the public- or private-key map, each once; by the
     * invariant, exactly the threads under which some peer holds a public or
     * a private key.
     */
    method ThreadsFromKeys() returns (tids: seq<ThreadID>)
      requires Valid()
      ensures NoDuplicates(tids)
      ensures Elements(tids) == pks.Keys + sks.Keys
      ensures forall t :: t in tids <==> KeyedPeers(pks, sks, t) != {}
    {
      var ts := InsertKeys({}, pks);
      ts := InsertKeys(ts, sks);
      tids := Enumerate(ts);
      forall t ensures t in tids <==> KeyedPeers(pks, sks, t) != {} {
        assert t in tids <==> t in Elements(tids);
        KeyedThreadsHoldKeys(pks, sks, t);
      }
    }

    /**
     * The public key of (t, p): the stored one if present; otherwise the key
     * extracted from `p`, which is then cached when extraction succeeds.
     */
    method LogPubKey(t: ThreadID, p: PeerID) returns (pk: Option<PubKey>)
      requires Valid()
      modifies this
      ensures Valid()
      ensures old(GetPubKey(t, p)).Some? ==> pk == old(GetPubKey(t, p)) && pks == old(pks)
      ensures old(GetPubKey(t, p)).None? ==> pk == checks.extractPublicKey(p)
      ensures old(GetPubKey(t, p)).None? && pk.Some? ==> pks == Put(old(pks), t, p, pk.value)
      ensures old(GetPubKey(t, p)).None? && pk.None? ==> pks == old(pks)
      ensures pk.Some? ==> GetPubKey(t, p) == pk && PubKeyBound(checks, p, pk.value)
      ensures sks == old(sks) && rks == old(rks) && fks == old(fks)
    {
      pk := GetPubKey(t, p);
      if pk.Some? {
        return;
      }
      pk := checks.extractPublicKey(p);
      if pk.Some? {
        ghost var before := pks;
        var inner := if t in pks then pks[t] else map[];  // created on first write
        pks := pks[t := inner[p := pk.value]];
        assert pks == Put(before, t, p, pk.value);
        PutFrame(before, t, p, pk.value);
        PutKeepsNonEmpty(before, t, p, pk.value);
        PutKeepsPubKeysBound(checks, before, t, p, pk.value);
      }
    }

    /** Stores `pk` for (t, p) when `p` matches it; otherwise changes nothing. */
    method AddLogPubKey(t: ThreadID, p: PeerID, pk: PubKey) returns (result: Outcome<KeyError>)
      requires Valid()
      modifies this
      ensures Valid()
      ensures result == if checks.matchesPublicKey(p, pk) then Pass else Fail(IDMismatchPublicKey)
      ensures pks == if result.Pass? then Put(old(pks), t, p, pk) else old(pks)
      ensures result.Pass? ==> GetPubKey(t, p) == Some(pk)
      ensures sks == old(sks) && rks == old(rks) && fks == old(fks)
    {
      if !checks.matchesPublicKey(p, pk) {
        return Fail(IDMismatchPublicKey);
      }
      ghost var before := pks;
      var inner := if t in pks then pks[t] else map[];  // created on first write
      pks := pks[t := inner[p := pk]];
      assert pks == Put(before, t, p, pk);
      PutFrame(before, t, p, pk);
      PutKeepsNonEmpty(before, t, p, pk);
      PutKeepsPubKeysBound(checks, before, t, p, pk);
      return Pass;
    }

    /**
     * Stores `sk` for (t, p) when it is present and `p` matches it; the nil
     * check comes first. A rejected call changes nothing.
     */
    method AddLogPrivKey(t: ThreadID, p: PeerID, sk: Option<PrivKey>) returns (result: Outcome<KeyError>)
      requires Valid()
      modifies this
      ensures Valid()
      ensures result == if sk.None? then Fail(NilPrivateKey)
                        else if !checks.matchesPrivateKey(p, sk.value) then Fail(IDMismatchPrivateKey)
                        else Pass
      ensures sks == if result.Pass? then Put(old(sks), t, p, sk.value) else old(sks)
      ensures result.Pass? ==> LogPrivKey(t, p) == sk
      ensures pks == old(pks) && rks == old(rks) && fks == old(fks)
    {
      if sk.None? {
        return Fail(NilPrivateKey);
      }
      if !checks.matchesPrivateKey(p, sk.value) {
        return Fail(IDMismatchPrivateKey);
      }
      ghost var before := sks;
      var inner := if t in sks then sks[t] else map[];  // created on first write
      sks := sks[t := inner[p := sk.value]];
      assert sks == Put(before, t, p, sk.value);
      PutFrame(before, t, p, sk.value);
      PutKeepsNonEmpty(before, t, p, sk.value);
      PutKeepsPrivKeysBound(checks, before, t, p, sk.value);
      return Pass;
    }

    /** Stores a read key for (t, p); only a nil key is rejected, an empty one is stored. */
    method AddLogReadKey(t: ThreadID, p: PeerID, key: Option<Bytes>) returns (result: Outcome<KeyError>)
      requires Valid()
      modifies this
      ensures Valid()
      ensures result == if key.None? then Fail(NilReadKey) else Pass
      ensures rks == if result.Pass? then Put(old(rks), t, p, key.value) else old(rks)
      ensures result.Pass? ==> LogReadKey(t, p) == key
      ensures pks == old(pks) && sks == old(sks) && fks == old(fks)
    {
      if key.None? {
        return Fail(NilReadKey);
      }
      ghost var before := rks;
      var inner := if t in rks then rks[t] else map[];  // created on first write
      rks := rks[t := inner[p := key.value]];
      assert rks == Put(before, t, p, key.value);
      PutFrame(before, t, p, key.value);
      PutKeepsNonEmpty(before, t, p, key.value);
      return Pass;
    }

    /** Stores a follow key for (t, p); only a nil key is rejected, an empty one is stored. */
    method AddLogFollowKey(t: ThreadID, p: PeerID, key: Option<Bytes>) returns (result: Outcome<KeyError>)
      requires Valid()
      modifies this
      ensures Valid()
      ensures result == if key.None? then Fail(NilFollowKey) else Pass
      ensures fks == if result.Pass? then Put(old(fks), t, p, key.value) else old(fks)
      ensures result.Pass? ==> LogFollowKey(t, p) == key
      ensures pks == old(pks) && sks == old(sks) && rks == old(rks)
    {
      if key.None? {
        return Fail(NilFollowKey);
      }
      ghost var before := fks;
      var inner := if t in fks then fks[t] else map[];  // created on first write
      fks := fks[t := inner[p := key.value]];
      assert fks == Put(before, t, p, key.value);
      PutFrame(before, t, p, key.value);
      PutKeepsNonEmpty(before, t, p, key.value);
      return Pass;
    }
  }
}
