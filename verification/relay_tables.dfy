/** The relay's shared tables, each method one critical section of the source: the pending table and the registry. */
module RelayTables {
  import opened Wrappers
  import opened Bytes
  import opened Rewriter

  /** One accepted connection; the source compares *Peer pointers. */
  type PeerId = nat

  /** What the CER of a peer says about it, and the remote endpoint of its socket. */
  datatype Identity = Identity(host: bytes, realm: bytes, remote: nat)

  /** Origin-Host and remote endpoint: the registry key. */
  type Key = (bytes, nat)

  function KeyOf(id: Identity): (k: Key) {
    (id.host, id.remote)
  }

  /** What is needed to answer a request once its answer comes back. */
  datatype Entry = Entry(origPeer: PeerId, origHbH: u32, origEndToEnd: u32, cmdCode: u32)

  // --- pending requests ---

  function Forgotten(m: map<u32, Entry>, p: PeerId): (r: map<u32, Entry>) {
    map k | k in m && m[k].origPeer != p :: m[k]
  }

  class PendingTable {
    var m: map<u32, Entry>

    constructor ()
      ensures m == map[]
    {
      m := map[];
    }

    method Put(hbh: u32, e: Entry)
      modifies this
      ensures m == old(m)[hbh := e]
    {
      m := m[hbh := e];
    }

    method Take(hbh: u32) returns (e: Option<Entry>)
      modifies this
      ensures e == if hbh in old(m) then Some(old(m)[hbh]) else None
      ensures m == old(m) - {hbh}
    {
      e := None;
      if hbh in m {
        e := Some(m[hbh]);
        m := m - {hbh};
      }
    }

    /** Deletes while it ranges over the map, in whatever order the keys come. */
    method ForgetPeer(p: PeerId)
      modifies this
      ensures m == Forgotten(old(m), p)
      ensures forall k: u32 :: k in m <==> k in old(m) && old(m)[k].origPeer != p
      ensures forall k <- m :: m[k] == old(m)[k]
    {
      var todo := m.Keys;
      while todo != {}
        invariant todo <= m.Keys <= old(m).Keys
        invariant forall k <- m :: m[k] == old(m)[k]
        invariant forall k <- old(m) :: k in m <==> k in todo || old(m)[k].origPeer != p
        decreases |todo|
      {
        var k :| k in todo;
        todo := todo - {k};
        if m[k].origPeer == p {
          m := m - {k};
        }
      }
    }
  }

  // --- registered peers ---

  /** Is p registered, under some key, with the given property of its identity? */
  ghost predicate Registered(peers: map<Key, PeerId>, p: PeerId) {
    exists k <- peers :: peers[k] == p
  }

  /** A possible result of peerByHost: any registered peer of that host, or none when there is none. */
  ghost predicate HostFound(peers: map<Key, PeerId>, ids: map<PeerId, Identity>, host: bytes, r: Option<PeerId>)
    requires peers.Values <= ids.Keys
  {
    match r
    case None => forall k <- peers :: ids[peers[k]].host != host
    case Some(p) => Registered(peers, p) && ids[p].host == host
  }

  ghost predicate Candidate(peers: map<Key, PeerId>, ids: map<PeerId, Identity>, realm: bytes, from: PeerId, p: PeerId)
    requires peers.Values <= ids.Keys
  {
    Registered(peers, p) && ids[p].realm == realm && p != from
  }

  /** A possible outcome of the realm step: a peer of the realm other than the sender, or none when there is none. */
  ghost predicate RealmPicked(peers: map<Key, PeerId>, ids: map<PeerId, Identity>, realm: bytes, from: PeerId,
                              r: Option<PeerId>)
    requires peers.Values <= ids.Keys
  {
    match r
    case None => forall p :: !Candidate(peers, ids, realm, from, p)
    case Some(p) => Candidate(peers, ids, realm, from, p)
  }

  /** The Destination-Host when it is registered and not the sender; otherwise a peer of the Destination-Realm. */
  ghost predicate Picked(peers: map<Key, PeerId>, ids: map<PeerId, Identity>, rv: RoutingView, from: PeerId,
                         r: Option<PeerId>)
    requires peers.Values <= ids.Keys
  {
    (rv.destinationHost != [] && r.Some? && r.value != from && HostFound(peers, ids, rv.destinationHost, r))
    || (RealmPicked(peers, ids, rv.destinationRealm, from, r)
        && (rv.destinationHost == []
            || exists h :: HostFound(peers, ids, rv.destinationHost, h) && (h == None || h == Some(from))))
  }

  /** What the choice means, in terms of the registered peers: never the sender; of the Destination-Host if that is the
      host of some registered peer and not of the sender; otherwise of the Destination-Realm; and none only when no
      other peer is of that realm. */
  ghost predicate PickedWell(peers: map<Key, PeerId>, ids: map<PeerId, Identity>, rv: RoutingView, from: PeerId,
                             r: Option<PeerId>)
    requires peers.Values <= ids.Keys
  {
    && (r.Some? ==>
          (exists k <- peers :: peers[k] == r.value) && r.value != from
          && ((rv.destinationHost != [] && ids[r.value].host == rv.destinationHost)
              || ids[r.value].realm == rv.destinationRealm))
    && (rv.destinationHost != [] && (exists k <- peers :: ids[peers[k]].host == rv.destinationHost)
        && (forall k <- peers :: ids[peers[k]].host == rv.destinationHost ==> peers[k] != from) ==>
          r.Some? && ids[r.value].host == rv.destinationHost)
    && (r.Some?
        && (rv.destinationHost == []
            || forall k <- peers :: ids[peers[k]].host == rv.destinationHost ==> peers[k] == from) ==>
          ids[r.value].realm == rv.destinationRealm)
    && (r.None? ==> forall k <- peers :: peers[k] != from ==> ids[peers[k]].realm != rv.destinationRealm)
  }

  lemma PickedIsWell(peers: map<Key, PeerId>, ids: map<PeerId, Identity>, rv: RoutingView, from: PeerId,
                     r: Option<PeerId>)
    requires peers.Values <= ids.Keys && Picked(peers, ids, rv, from, r)
    ensures PickedWell(peers, ids, rv, from, r)
  {
    if r.None? {
      forall k | k in peers && peers[k] != from
        ensures ids[peers[k]].realm != rv.destinationRealm
      {
        assert Registered(peers, peers[k]);
        assert !Candidate(peers, ids, rv.destinationRealm, from, peers[k]);
      }
    }
  }

  /** The registry without a peer, if its key still leads to it: a newer connection may have taken the key over. */
  function Without(peers: map<Key, PeerId>, k: Key, p: PeerId): (r: map<Key, PeerId>) {
    if k in peers && peers[k] == p then peers - {k} else peers
  }

  class Registry {
    var peers: map<Key, PeerId>
    var identity: map<PeerId, Identity>
    var rrCounter: nat

    predicate Valid()
      reads this
    {
      peers.Values <= identity.Keys && rrCounter < U64_SPAN
    }

    method RegisterPeer(p: PeerId)
      requires Valid() && p in identity
      modifies this`peers
      ensures Valid() && peers == old(peers)[KeyOf(identity[p]) := p]
      ensures peers == old(peers)[(identity[p].host, identity[p].remote) := p]
    {
      peers := peers[KeyOf(identity[p]) := p];
    }

    method RemovePeer(p: PeerId)
      requires Valid() && p in identity
      modifies this`peers
      ensures Valid()
      ensures peers == Without(old(peers), KeyOf(identity[p]), p)
      ensures forall k: Key ::
                k in peers <==> k in old(peers) && !(k == (identity[p].host, identity[p].remote) && old(peers)[k] == p)
      ensures forall k <- peers :: peers[k] == old(peers)[k]
    {
      var k := KeyOf(identity[p]);
      if k in peers && peers[k] == p {
        peers := peers - {k};
      }
    }

    method PeerByHost(host: bytes) returns (r: Option<PeerId>)
      requires Valid()
      ensures HostFound(peers, identity, host, r)
    {
      var todo := peers.Keys;
      while todo != {}
        invariant todo <= peers.Keys
        invariant forall k <- peers :: k in todo || identity[peers[k]].host != host
        decreases |todo|
      {
        var k :| k in todo;
        todo := todo - {k};
        if identity[peers[k]].host == host {
          return Some(peers[k]);
        }
      }
      return None;
    }

    method PeersByRealm(realm: bytes) returns (out: seq<PeerId>)
      requires Valid()
      ensures forall p :: p in out <==> Registered(peers, p) && identity[p].realm == realm
    {
      out := [];
      var todo := peers.Keys;
      while todo != {}
        invariant todo <= peers.Keys
        invariant forall p <- out :: Registered(peers, p) && identity[p].realm == realm
        invariant forall k <- peers :: k in todo || (identity[peers[k]].realm == realm ==> peers[k] in out)
        decreases |todo|
      {
        var k :| k in todo;
        todo := todo - {k};
        if identity[peers[k]].realm == realm {
          out := out + [peers[k]];
        }
      }
    }

    /** The lookups, then the filter that overwrites the candidate slice in place. */
    method PickPeer(rv: RoutingView, from: PeerId) returns (r: Option<PeerId>)
      requires Valid()
      modifies this`rrCounter
      ensures Valid() && Picked(peers, identity, rv, from, r)
      ensures PickedWell(peers, identity, rv, from, r)
    {
      if rv.destinationHost != [] {
        var h := PeerByHost(rv.destinationHost);
        if h.Some? && h.value != from {
          PickedIsWell(peers, identity, rv, from, h);
          return h;
        }
      }
      var found := PeersByRealm(rv.destinationRealm);
      var candidates := new PeerId[|found|](i requires 0 <= i < |found| => found[i]);
      assert candidates[..] == found;
      var n := FilterInPlace(candidates, from);
      ExceptHolds(found, from);
      if n == 0 {
        assert forall p <- found :: p == from;
        PickedIsWell(peers, identity, rv, from, None);
        return None;
      }
      rrCounter := (rrCounter + 1) % 0x1_0000_0000_0000_0000;
      r := Some(candidates[rrCounter % n]);
      assert candidates[rrCounter % n] in candidates[..n];
      PickedIsWell(peers, identity, rv, from, r);
    }
  }

  /** The peers of a row other than one, in their order. */
  function Except(s: seq<PeerId>, from: PeerId): (r: seq<PeerId>) {
    if s == [] then []
    else Except(s[..|s| - 1], from) + if s[|s| - 1] != from then [s[|s| - 1]] else []
  }

  /** They are taken one by one: nothing else decides whether a peer stays. */
  lemma {:induction false} ExceptAppend(s: seq<PeerId>, t: seq<PeerId>, from: PeerId)
    ensures Except(s + t, from) == Except(s, from) + Except(t, from)
  {
    if t == [] {
      assert s + t == s;
    } else {
      var n := |t| - 1;
      ExceptAppend(s, t[..n], from);
      assert (s + t)[..|s| + n] == s + t[..n] && (s + t)[|s| + n] == t[n];
      Assoc(Except(s, from), Except(t[..n], from), if t[n] != from then [t[n]] else []);
    }
  }

  lemma ExceptOne(p: PeerId, from: PeerId)
    ensures Except([p], from) == if p == from then [] else [p]
  {
    assert [p][..0] == [];
  }

  lemma {:induction false} ExceptHolds(s: seq<PeerId>, from: PeerId)
    ensures forall p :: p in Except(s, from) <==> p in s && p != from
  {
    if s != [] {
      ExceptHolds(s[..|s| - 1], from);
      assert s == s[..|s| - 1] + [s[|s| - 1]];
    }
  }

  method FilterInPlace(a: array<PeerId>, from: PeerId) returns (n: nat)
    modifies a
    ensures n <= a.Length && a[..n] == Except(old(a[..]), from)
  {
    n := 0;
    for i := 0 to a.Length
      invariant n <= i && a[..n] == Except(old(a[..i]), from)
      invariant a[i..] == old(a[i..])
    {
      ghost var p := a[i];
      assert p == old(a[i..])[0];
      assert old(a[..i + 1])[..i] == old(a[..i]) && old(a[..i + 1])[i] == p;
      if a[i] != from {
        assert old(a[i + 1..]) == a[i..][1..];
        a[n] := a[i];
        assert a[..n + 1] == a[..n] + [p];
        n := n + 1;
      }
    }
    assert old(a[..a.Length]) == old(a[..]);
  }
}
