/** The client address behind trusted proxies. */
module Net {
  import opened Text

  /** The stripped entries that are not blank. */
  function Entries(items: seq<string>): seq<string> {
    if items == [] then []
    else (if Strip(items[0]) != "" then [Strip(items[0])] else []) + Entries(items[1..])
  }

  /** `resolve_client_ip`; `forwarded` is the X-Forwarded-For header, if any. */
  function ResolveClientIp(peer: string, forwarded: Option<string>, hops: int): string {
    if hops <= 0 then peer
    else if forwarded.None? || forwarded.value == "" then peer
    else
      var entries := Entries(Split(forwarded.value, ','));
      if |entries| < hops then peer else entries[|entries| - hops]
  }

  /** A proxy adds the address it sees to the header, or starts one. */
  function Forward(header: Option<string>, peer: string): Option<string> {
    match header
    case None => Some(peer)
    case Some(h) => Some(h + ", " + peer)
  }

  /** The header after a chain of proxies, outermost first, each seeing the next peer. */
  function Through(header: Option<string>, peers: seq<string>): Option<string>
    decreases |peers|
  {
    if peers == [] then header else Through(Forward(header, peers[0]), peers[1..])
  }

  /** An address as a proxy writes it. */
  predicate IsAddress(a: string) { a != "" && ',' !in a && Trimmed(a) }

  lemma {:induction false} SplitAppend(h: string, item: string)
    requires ',' !in item
    ensures Split(h + ("," + item), ',') == Split(h, ',') + [item]
  {
    SplitOne(item, ',');
    if h == "" {
      assert "" + ("," + item) == "," + item && ("," + item)[1..] == item;
    } else {
      SplitAppend(h[1..], item);
      assert (h + ("," + item))[1..] == h[1..] + ("," + item);
      var r := Split(h[1..], ',');
      assert (r + [item])[0] == r[0] && (r + [item])[1..] == r[1..] + [item];
    }
  }

  lemma {:induction false} EntriesAppend(a: seq<string>, b: seq<string>)
    ensures Entries(a + b) == Entries(a) + Entries(b)
  {
    hide Strip;
    if a == [] {
      assert a + b == b;
    } else {
      assert (a + b)[1..] == a[1..] + b;
      EntriesAppend(a[1..], b);
    }
  }

  /** A blank entry, however many and wherever, does not count. */
  lemma {:induction false} BlankEntryIgnored(a: seq<string>, blank: string, b: seq<string>)
    requires All(IsSpace, blank)
    ensures Entries(a + ([blank] + b)) == Entries(a + b)
  {
    hide Strip;
    EntriesAppend(a, [blank] + b);
    EntriesAppend(a, b);
    StripPadded(blank, "", "");
    assert blank + "" + "" == blank && ([blank] + b)[1..] == b;
    assert [] + Entries(b) == Entries(b);
  }

  function HeaderEntries(header: Option<string>): seq<string> {
    match header case None => [] case Some(h) => Entries(Split(h, ','))
  }

  /** One proxy adds exactly one entry, after whatever the header held. */
  lemma {:induction false} ForwardAddsOne(header: Option<string>, peer: string)
    requires IsAddress(peer)
    ensures HeaderEntries(Forward(header, peer)) == HeaderEntries(header) + [peer]
    ensures Forward(header, peer) != Some("")
  {
    hide Strip, Split, Entries;
    StripPeer(peer);
    if header.Some? {
      var h := header.value;
      ForwardText(h, peer);
      SplitAppend(h, " " + peer);
      EntriesAppend(Split(h, ','), [" " + peer]);
      EntriesOne(" " + peer, peer);
    } else {
      SplitOne(peer, ',');
      EntriesOne(peer, peer);
      assert [] + [peer] == [peer];
    }
  }

  lemma {:induction false} ForwardText(h: string, peer: string)
    ensures h + ", " + peer == h + ("," + (" " + peer))
  {
  }

  lemma {:induction false} StripPeer(peer: string)
    requires Trimmed(peer)
    ensures Strip(peer) == peer && Strip(" " + peer) == peer
  {
    hide Strip;
    StripPadded("", peer, "");
    StripPadded(" ", peer, "");
    assert "" + peer + "" == peer && " " + peer + "" == " " + peer;
  }

  lemma {:induction false} EntriesOne(item: string, stripped: string)
    requires Strip(item) == stripped && stripped != ""
    ensures Entries([item]) == [stripped]
  {
    assert [item][1..] == [];
  }

  lemma {:induction false} ThroughAddsAll(header: Option<string>, peers: seq<string>)
    requires forall p :: p in peers ==> IsAddress(p)
    ensures HeaderEntries(Through(header, peers)) == HeaderEntries(header) + peers
    ensures peers != [] ==> Through(header, peers).Some? && Through(header, peers) != Some("")
    decreases |peers|
  {
    hide Forward, HeaderEntries;
    if peers == [] {
      assert HeaderEntries(header) + peers == HeaderEntries(header);
    } else {
      ForwardAddsOne(header, peers[0]);
      ThroughAddsAll(Forward(header, peers[0]), peers[1..]);
      assert HeaderEntries(header) + [peers[0]] + peers[1..] == HeaderEntries(header) + peers;
      if |peers| == 1 { ForwardSome(header, peers[0]); }
    }
  }

  lemma {:induction false} ForwardSome(header: Option<string>, peer: string)
    ensures Forward(header, peer).Some?
  {
  }

  /** After N trusted proxies, the resolved address is the one the outermost of them saw,
      whatever header the client sent. */
  lemma {:induction false} ProxyRecovery(clientHeader: Option<string>, peers: seq<string>, socketPeer: string)
    requires peers != [] && forall p :: p in peers ==> IsAddress(p)
    ensures ResolveClientIp(socketPeer, Through(clientHeader, peers), |peers|) == peers[0]
  {
    hide Through, Split, Entries, IsAddress;
    ThroughAddsAll(clientHeader, peers);
  }

  /** The address is the outermost proxy's even when proxies beyond the trusted ones added
      their own entries. */
  lemma {:induction false} UntrustedPrefixIgnored(clientHeader: Option<string>, outer: seq<string>,
                                                  trusted: seq<string>, socketPeer: string)
    requires trusted != [] && forall p :: p in outer + trusted ==> IsAddress(p)
    ensures ResolveClientIp(socketPeer, Through(clientHeader, outer + trusted), |trusted|) == trusted[0]
  {
    hide Through, Split, Entries, IsAddress;
    ThroughAddsAll(clientHeader, outer + trusted);
  }

  /** With fewer entries than trusted proxies, the header is not believed at all: the socket
      peer is the address. */
  lemma {:induction false} TooFewEntries(clientHeader: Option<string>, peers: seq<string>, hops: int,
                                         socketPeer: string)
    requires forall p :: p in peers ==> IsAddress(p)
    requires |HeaderEntries(clientHeader)| + |peers| < hops || hops <= 0
    ensures ResolveClientIp(socketPeer, Through(clientHeader, peers), hops) == socketPeer
  {
    hide Through, Split, Entries, IsAddress;
    ThroughAddsAll(clientHeader, peers);
  }
}
