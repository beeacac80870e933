/**
 * The address registry backed by the Node table: `offerAddresses`, which
 * inserts or refreshes the offered peers and purges stale rows after a large
 * offer, `doGetKnownNodes`, the random bounded query per stream, and
 * `getKnownAddresses`, which falls back to the bundled nodes.txt seed list
 * when the table has nothing to offer.
 *
 * The Node table is a map from its key columns (ip, port, stream) to the
 * remaining columns (services, time). SQL, the clock, DNS and the random row
 * order are parameters.
 */
module NodeRegistry {
  import opened Wrappers
  import opened Bytes

  /** A peer address as the node knows it: IPv6-mapped ip, port, services, stream, last-seen time. */
  datatype NetworkAddress = NetworkAddress(ip: seq<Byte>, port: int, services: int, stream: int, time: int)

  /** The columns a Node row is looked up by. */
  datatype NodeKey = NodeKey(ip: seq<Byte>, port: int, stream: int)

  /** The columns an update may change. */
  datatype NodeRow = NodeRow(services: int, time: int)

  type Table = map<NodeKey, NodeRow>

  /** More offered addresses than this trigger the stale-row cleanup. */
  const PurgeAbove := 100

  /** One hour in seconds. */
  const Hour := 3600

  /** Rows last seen more than this many seconds ago are removed by the cleanup. */
  const StaleAge := 3 * Hour

  function KeyOf(a: NetworkAddress): NodeKey
  {
    NodeKey(a.ip, a.port, a.stream)
  }

  function RowOf(a: NetworkAddress): NodeRow
  {
    NodeRow(a.services, a.time)
  }

  function AddressOf(k: NodeKey, row: NodeRow): NetworkAddress
  {
    NetworkAddress(k.ip, k.port, row.services, k.stream, row.time)
  }

  // ---------------------------------------------------------------------
  // offerAddresses
  // ---------------------------------------------------------------------

  /**
   * The table after one offered address: a known row is overwritten only by a
   * strictly newer time that is not in the future; an unknown address is
   * inserted only when its time is not in the future.
   */
  function OfferOne(t: Table, a: NetworkAddress, now: int): (r: Table)
    ensures forall k :: k in t ==> k in r && t[k].time <= r[k].time
    ensures forall k :: k in r ==> k in t || (k == KeyOf(a) && a.time <= now)
    ensures forall k :: k in t && k != KeyOf(a) ==> r[k] == t[k]
    ensures KeyOf(a) in t && t[KeyOf(a)].time < a.time <= now ==> r[KeyOf(a)] == RowOf(a)
    ensures KeyOf(a) in t && !(t[KeyOf(a)].time < a.time <= now) ==> r[KeyOf(a)] == t[KeyOf(a)]
    ensures KeyOf(a) !in t && a.time <= now ==> KeyOf(a) in r && r[KeyOf(a)] == RowOf(a)
  {
    var k := KeyOf(a);
    if k in t then
      if t[k].time < a.time && a.time <= now then t[k := RowOf(a)] else t
    else if a.time <= now then t[k := RowOf(a)]
    else t
  }

  /** The table after the addresses were offered one after the other. */
  function Offered(t: Table, addrs: seq<NetworkAddress>, now: int): Table
  {
    if |addrs| == 0 then t
    else OfferOne(Offered(t, addrs[..|addrs| - 1], now), addrs[|addrs| - 1], now)
  }

  /** The table without the rows last seen before cutoff. */
  function Purged(t: Table, cutoff: int): Table
  {
    map k | k in t && t[k].time >= cutoff :: t[k]
  }

  /** The whole effect of offerAddresses: the offers, then the cleanup after a large offer. */
  function AfterOffer(t: Table, addrs: seq<NetworkAddress>, now: int): (r: Table)
    ensures forall k :: k in r ==> k in Offered(t, addrs, now) && r[k] == Offered(t, addrs, now)[k]
    ensures |addrs| > PurgeAbove ==> forall k :: k in r ==> r[k].time >= now - StaleAge
  {
    var u := Offered(t, addrs, now);
    if |addrs| > PurgeAbove then Purged(u, now - StaleAge) else u
  }

  /** Some offered address has key k. */
  ghost predicate OffersKey(addrs: seq<NetworkAddress>, k: NodeKey)
  {
    exists i :: 0 <= i < |addrs| && KeyOf(addrs[i]) == k
  }

  /** Some offered address has key k and a time that is not in the future. */
  ghost predicate AdmitsKey(addrs: seq<NetworkAddress>, k: NodeKey, now: int)
  {
    exists i :: 0 <= i < |addrs| && KeyOf(addrs[i]) == k && addrs[i].time <= now
  }

  /** Row r of key k was written by some offered address whose time is not in the future. */
  ghost predicate WrittenByOffer(addrs: seq<NetworkAddress>, k: NodeKey, r: NodeRow, now: int)
  {
    exists i :: 0 <= i < |addrs| && KeyOf(addrs[i]) == k && RowOf(addrs[i]) == r && addrs[i].time <= now
  }

  lemma OffersKeySnoc(addrs: seq<NetworkAddress>, k: NodeKey)
    requires |addrs| != 0
    ensures OffersKey(addrs, k) <==> OffersKey(addrs[..|addrs| - 1], k) || KeyOf(addrs[|addrs| - 1]) == k
  {
    var init := addrs[..|addrs| - 1];
    if OffersKey(init, k) {
      var i :| 0 <= i < |init| && KeyOf(init[i]) == k;
      assert addrs[i] == init[i];
    }
    if OffersKey(addrs, k) {
      var i :| 0 <= i < |addrs| && KeyOf(addrs[i]) == k;
      if i < |init| {
        assert init[i] == addrs[i];
      }
    }
  }

  lemma AdmitsKeySnoc(addrs: seq<NetworkAddress>, k: NodeKey, now: int)
    requires |addrs| != 0
    ensures AdmitsKey(addrs, k, now) <==>
      AdmitsKey(addrs[..|addrs| - 1], k, now) || (KeyOf(addrs[|addrs| - 1]) == k && addrs[|addrs| - 1].time <= now)
  {
    var init := addrs[..|addrs| - 1];
    if AdmitsKey(init, k, now) {
      var i :| 0 <= i < |init| && KeyOf(init[i]) == k && init[i].time <= now;
      assert addrs[i] == init[i];
    }
    if AdmitsKey(addrs, k, now) {
      var i :| 0 <= i < |addrs| && KeyOf(addrs[i]) == k && addrs[i].time <= now;
      if i < |init| {
        assert init[i] == addrs[i];
      }
    }
  }

  lemma WrittenByOfferSnoc(addrs: seq<NetworkAddress>, k: NodeKey, r: NodeRow, now: int)
    requires |addrs| != 0
    ensures WrittenByOffer(addrs[..|addrs| - 1], k, r, now) ==> WrittenByOffer(addrs, k, r, now)
    ensures var a := addrs[|addrs| - 1];
      KeyOf(a) == k && RowOf(a) == r && a.time <= now ==> WrittenByOffer(addrs, k, r, now)
  {
    var init := addrs[..|addrs| - 1];
    if WrittenByOffer(init, k, r, now) {
      var i :| 0 <= i < |init| && KeyOf(init[i]) == k && RowOf(init[i]) == r && init[i].time <= now;
      assert addrs[i] == init[i];
    }
  }

  /** The offer keeps every row, and no row's last-seen time goes back. */
  lemma {:induction false} OfferedNeverOlder(t: Table, addrs: seq<NetworkAddress>, now: int)
    ensures forall k :: k in t ==> k in Offered(t, addrs, now) && Offered(t, addrs, now)[k].time >= t[k].time
  {
    if |addrs| != 0 {
      OfferedNeverOlder(t, addrs[..|addrs| - 1], now);
    }
  }

  /** The keys after the offer: the old ones and those offered with a time that is not in the future. */
  lemma {:induction false} OfferedKeys(t: Table, addrs: seq<NetworkAddress>, now: int)
    ensures forall k :: k in Offered(t, addrs, now) <==> k in t || AdmitsKey(addrs, k, now)
  {
    if |addrs| != 0 {
      var init := addrs[..|addrs| - 1];
      OfferedKeys(t, init, now);
      forall k
        ensures k in Offered(t, addrs, now) <==> k in t || AdmitsKey(addrs, k, now)
      {
        AdmitsKeySnoc(addrs, k, now);
      }
    }
  }

  /** Every row the offer changed or added holds an offered address's services and a time not in the future. */
  lemma {:induction false} OfferedRowsComeFromOffers(t: Table, addrs: seq<NetworkAddress>, now: int)
    ensures forall k :: k in Offered(t, addrs, now) ==>
      (k in t && Offered(t, addrs, now)[k] == t[k]) || WrittenByOffer(addrs, k, Offered(t, addrs, now)[k], now)
  {
    if |addrs| != 0 {
      var init := addrs[..|addrs| - 1];
      var u := Offered(t, init, now);
      OfferedRowsComeFromOffers(t, init, now);
      forall k | k in Offered(t, addrs, now) && !(k in t && Offered(t, addrs, now)[k] == t[k])
        ensures WrittenByOffer(addrs, k, Offered(t, addrs, now)[k], now)
      {
        WrittenByOfferSnoc(addrs, k, Offered(t, addrs, now)[k], now);
      }
    }
  }

  /** Rows whose key no offered address has are left exactly as they were. */
  lemma {:induction false} OfferedLeavesOthers(t: Table, addrs: seq<NetworkAddress>, now: int, k: NodeKey)
    requires !OffersKey(addrs, k)
    ensures k in Offered(t, addrs, now) <==> k in t
    ensures k in t ==> Offered(t, addrs, now)[k] == t[k]
  {
    if |addrs| != 0 {
      OffersKeySnoc(addrs, k);
      OfferedLeavesOthers(t, addrs[..|addrs| - 1], now, k);
    }
  }

  /**
   * A stored row changes only to a strictly newer time: an offer whose time
   * equals the stored one does not overwrite it.
   */
  lemma {:induction false} OfferedChangesOnlyNewer(t: Table, addrs: seq<NetworkAddress>, now: int)
    ensures forall k :: k in t ==>
      k in Offered(t, addrs, now) &&
      (Offered(t, addrs, now)[k] != t[k] ==> Offered(t, addrs, now)[k].time > t[k].time)
  {
    if |addrs| != 0 {
      var init := addrs[..|addrs| - 1];
      OfferedChangesOnlyNewer(t, init, now);
      OfferedNeverOlder(t, init, now);
    }
  }

  /**
   * Every offer whose time is not in the future is recorded: its key is in
   * the table afterwards with a last-seen time at least the offer's.
   */
  lemma {:induction false} OfferedRecordsNewest(t: Table, addrs: seq<NetworkAddress>, now: int)
    ensures forall i :: 0 <= i < |addrs| && addrs[i].time <= now ==>
      KeyOf(addrs[i]) in Offered(t, addrs, now) && Offered(t, addrs, now)[KeyOf(addrs[i])].time >= addrs[i].time
  {
    if |addrs| != 0 {
      var init := addrs[..|addrs| - 1];
      OfferedRecordsNewest(t, init, now);
      forall i | 0 <= i < |addrs| - 1 && addrs[i].time <= now
        ensures KeyOf(addrs[i]) in Offered(t, addrs, now) && Offered(t, addrs, now)[KeyOf(addrs[i])].time >= addrs[i].time
      {
        assert init[i] == addrs[i];
      }
    }
  }

  /** An offer of at most PurgeAbove addresses runs no cleanup: no row, stored or inserted, is removed. */
  lemma SmallOfferKeepsRows(t: Table, addrs: seq<NetworkAddress>, now: int)
    requires |addrs| <= PurgeAbove
    ensures AfterOffer(t, addrs, now) == Offered(t, addrs, now)
    ensures forall k :: k in t ==> k in AfterOffer(t, addrs, now) && AfterOffer(t, addrs, now)[k].time >= t[k].time
  {
    OfferedNeverOlder(t, addrs, now);
  }

  /**
   * After an offer of more than PurgeAbove addresses no row is older than
   * StaleAge, and every offered row that is recent enough survives the cleanup.
   */
  lemma LargeOfferPurgesStale(t: Table, addrs: seq<NetworkAddress>, now: int)
    requires |addrs| > PurgeAbove
    ensures forall k :: k in AfterOffer(t, addrs, now) ==> AfterOffer(t, addrs, now)[k].time >= now - StaleAge
    ensures forall k :: k in Offered(t, addrs, now) && Offered(t, addrs, now)[k].time >= now - StaleAge ==>
      k in AfterOffer(t, addrs, now) && AfterOffer(t, addrs, now)[k] == Offered(t, addrs, now)[k]
  {
  }

  // ---------------------------------------------------------------------
  // doGetKnownNodes
  // ---------------------------------------------------------------------

  /** a is the row of t under its key, in one of the requested streams. */
  predicate Listed(t: Table, streams: seq<int>, a: NetworkAddress)
  {
    KeyOf(a) in t && t[KeyOf(a)] == RowOf(a) && a.stream in streams
  }

  /**
   * The rows the query returns when the database visits the keys in the given
   * (random) order: those in one of the streams, at most limit of them.
   */
  function KnownNodes(t: Table, limit: nat, streams: seq<int>, order: seq<NodeKey>): (r: seq<NetworkAddress>)
    ensures |r| <= limit
    ensures forall i :: 0 <= i < |r| ==> Listed(t, streams, r[i])
  {
    if |order| == 0 then []
    else
      var prev := KnownNodes(t, limit, streams, order[..|order| - 1]);
      var k := order[|order| - 1];
      if |prev| < limit && k in t && k.stream in streams then prev + [AddressOf(k, t[k])] else prev
  }

  /**
   * ORDER BY RANDOM() over the Node table: the order lists every key of the
   * table, and each exactly once.
   */
  ghost predicate VisitsEachOnce(t: Table, order: seq<NodeKey>)
  {
    && (forall i, j :: 0 <= i < j < |order| ==> order[i] != order[j])
    && (forall k :: k in order <==> k in t)
  }

  /** The keys the query may return: those of rows in one of the streams. */
  ghost function RowsIn(t: Table, streams: seq<int>): set<NodeKey>
  {
    set k | k in t && k.stream in streams
  }

  /** The query has nothing to return: the limit is zero or no row is in one of the streams. */
  predicate NothingToList(t: Table, limit: nat, streams: seq<int>)
  {
    limit == 0 || forall k :: k in t ==> k.stream !in streams
  }

  function Min(a: int, b: int): int
  {
    if a <= b then a else b
  }

  /** How many positions of order name a row of t in one of the streams. */
  function CountListed(t: Table, streams: seq<int>, order: seq<NodeKey>): nat
  {
    if |order| == 0 then 0
    else
      var k := order[|order| - 1];
      CountListed(t, streams, order[..|order| - 1]) + if k in t && k.stream in streams then 1 else 0
  }

  /** The query returns as many rows as the order names in the streams, up to the limit. */
  lemma {:induction false} KnownNodesLength(t: Table, limit: nat, streams: seq<int>, order: seq<NodeKey>)
    ensures |KnownNodes(t, limit, streams, order)| == Min(limit, CountListed(t, streams, order))
  {
    if |order| != 0 {
      KnownNodesLength(t, limit, streams, order[..|order| - 1]);
    }
  }

  /** A prefix of an order without repetitions has none, and does not contain the last key. */
  lemma DistinctPrefix(order: seq<NodeKey>)
    requires |order| != 0 && forall i, j :: 0 <= i < j < |order| ==> order[i] != order[j]
    ensures var p := order[..|order| - 1];
      && (forall i, j :: 0 <= i < j < |p| ==> p[i] != p[j])
      && order[|order| - 1] !in p
  {
    var p := order[..|order| - 1];
    assert forall i :: 0 <= i < |p| ==> p[i] == order[i];
  }

  /** The keys of order in the streams are those of its prefix, and the last key if it qualifies. */
  lemma ListedKeysStep(t: Table, streams: seq<int>, order: seq<NodeKey>)
    requires |order| != 0
    ensures var k := order[|order| - 1];
      (set x | x in order && x in t && x.stream in streams) ==
      (set x | x in order[..|order| - 1] && x in t && x.stream in streams) + (if k in t && k.stream in streams then {k} else {})
  {
    var p := order[..|order| - 1];
    assert forall x :: x in order <==> x in p || x == order[|order| - 1] by {
      assert order == p + [order[|order| - 1]];
    }
  }

  /** Over an order without repetitions, the positions counted are the distinct keys in the streams. */
  lemma {:induction false} CountListedDistinct(t: Table, streams: seq<int>, order: seq<NodeKey>)
    requires forall i, j :: 0 <= i < j < |order| ==> order[i] != order[j]
    ensures CountListed(t, streams, order) == |set k | k in order && k in t && k.stream in streams|
  {
    if |order| == 0 {
      assert (set k | k in order && k in t && k.stream in streams) == {};
    } else {
      var p := order[..|order| - 1];
      DistinctPrefix(order);
      CountListedDistinct(t, streams, p);
      ListedKeysStep(t, streams, order);
    }
  }

  /** Every row the query returns comes from a key the order visits. */
  lemma {:induction false} KnownNodesFromOrder(t: Table, limit: nat, streams: seq<int>, order: seq<NodeKey>)
    ensures var r := KnownNodes(t, limit, streams, order);
      forall i :: 0 <= i < |r| ==> KeyOf(r[i]) in order
  {
    if |order| != 0 {
      var p := order[..|order| - 1];
      KnownNodesFromOrder(t, limit, streams, p);
      KnownNodesStep(t, limit, streams, order);
      assert forall k :: k in p ==> k in order;
    }
  }

  /** Over an order without repetitions the query returns no row twice. */
  lemma {:induction false} KnownNodesDistinct(t: Table, limit: nat, streams: seq<int>, order: seq<NodeKey>)
    requires forall i, j :: 0 <= i < j < |order| ==> order[i] != order[j]
    ensures var r := KnownNodes(t, limit, streams, order);
      forall i, j :: 0 <= i < j < |r| ==> KeyOf(r[i]) != KeyOf(r[j])
  {
    if |order| != 0 {
      var p := order[..|order| - 1];
      DistinctPrefix(order);
      KnownNodesDistinct(t, limit, streams, p);
      KnownNodesFromOrder(t, limit, streams, p);
      KnownNodesStep(t, limit, streams, order);
    }
  }

  /** The last key the order visits adds its own row, or nothing. */
  lemma KnownNodesStep(t: Table, limit: nat, streams: seq<int>, order: seq<NodeKey>)
    requires |order| != 0
    ensures var prev := KnownNodes(t, limit, streams, order[..|order| - 1]);
      var k := order[|order| - 1];
      var r := KnownNodes(t, limit, streams, order);
      (r == prev && |r| == |prev|) || (k in t && r == prev + [AddressOf(k, t[k])] && KeyOf(r[|prev|]) == k)
  {
  }

  /**
   * When the database visits every row once, the query returns
   * min(limit, rows in the streams) rows, no row twice.
   */
  lemma KnownNodesCount(t: Table, limit: nat, streams: seq<int>, order: seq<NodeKey>)
    requires VisitsEachOnce(t, order)
    ensures var r := KnownNodes(t, limit, streams, order);
      && |r| == Min(limit, |RowsIn(t, streams)|)
      && forall i, j :: 0 <= i < j < |r| ==> KeyOf(r[i]) != KeyOf(r[j])
  {
    KnownNodesLength(t, limit, streams, order);
    CountListedDistinct(t, streams, order);
    assert (set k | k in order && k in t && k.stream in streams) == RowsIn(t, streams);
    KnownNodesDistinct(t, limit, streams, order);
  }

  /**
   * When the random order visits every row, the query returns nothing exactly
   * when the limit is zero or no row is in one of the requested streams.
   */
  lemma {:induction false} KnownNodesEmpty(t: Table, limit: nat, streams: seq<int>, order: seq<NodeKey>)
    requires forall k :: k in t ==> k in order
    ensures |KnownNodes(t, limit, streams, order)| == 0 <==> NothingToList(t, limit, streams)
  {
    var r := KnownNodes(t, limit, streams, order);
    if |r| != 0 {
      assert Listed(t, streams, r[0]);
      assert KeyOf(r[0]) in t && KeyOf(r[0]).stream in streams;
    }
    if limit != 0 && exists k :: k in t && k.stream in streams {
      var k :| k in t && k.stream in streams;
      var j :| 0 <= j < |order| && order[j] == k;
      KnownNodesGrow(t, limit, streams, order, j + 1);
      assert order[..j + 1][..j] == order[..j] && order[..j + 1][j] == k;
      assert |KnownNodes(t, limit, streams, order[..j + 1])| != 0;
    }
  }

  /** The query over a longer order returns at least as many rows. */
  lemma {:induction false} KnownNodesGrow(t: Table, limit: nat, streams: seq<int>, order: seq<NodeKey>, n: nat)
    requires n <= |order|
    ensures |KnownNodes(t, limit, streams, order[..n])| <= |KnownNodes(t, limit, streams, order)|
  {
    if n < |order| {
      KnownNodesGrow(t, limit, streams, order[..|order| - 1], n);
      assert order[..|order| - 1][..n] == order[..n];
    } else {
      assert order[..n] == order;
    }
  }

  // ---------------------------------------------------------------------
  // The nodes.txt seed list
  // ---------------------------------------------------------------------

  const LongMin := -0x8000_0000_0000_0000
  const LongMax := 0x7fff_ffff_ffff_ffff
  const IntMin := -0x8000_0000
  const IntMax := 0x7fff_ffff

  /** A character that String.trim removes: any code point up to the space. */
  predicate Blank(c: char)
  {
    c <= ' '
  }

  /** The number of blanks s starts with. */
  function LeadingBlanks(s: string): (n: nat)
    ensures n <= |s|
    ensures forall i :: 0 <= i < n ==> Blank(s[i])
    ensures n < |s| ==> !Blank(s[n])
  {
    if |s| == 0 || !Blank(s[0]) then 0 else 1 + LeadingBlanks(s[1..])
  }

  /** The number of blanks s ends with. */
  function TrailingBlanks(s: string): (n: nat)
    ensures n <= |s|
    ensures forall i :: |s| - n <= i < |s| ==> Blank(s[i])
    ensures n < |s| ==> !Blank(s[|s| - n - 1])
  {
    if |s| == 0 || !Blank(s[|s| - 1]) then 0 else 1 + TrailingBlanks(s[..|s| - 1])
  }

  /** String.trim: s without its leading and trailing blanks. */
  function Trim(s: string): (r: string)
  {
    var t := s[LeadingBlanks(s)..];
    t[..|t| - TrailingBlanks(t)]
  }

  /** Trim returns a slice of s that is empty or starts and ends with a non-blank, and cuts only blanks. */
  lemma TrimShape(s: string)
    ensures exists b, e :: (0 <= b <= e <= |s| && Trim(s) == s[b..e]
      && (forall i :: 0 <= i < b ==> Blank(s[i])) && (forall i :: e <= i < |s| ==> Blank(s[i])))
    ensures |Trim(s)| != 0 ==> !Blank(Trim(s)[0]) && !Blank(Trim(s)[|Trim(s)| - 1])
  {
    var b := LeadingBlanks(s);
    var t := s[b..];
    var e := b + |t| - TrailingBlanks(t);
    assert Trim(s) == s[b..e];
    forall i | e <= i < |s| ensures Blank(s[i]) {
      assert s[i] == t[i - b];
    }
  }

  /** A string that is empty or starts and ends with a non-blank is its own trim. */
  lemma TrimUnchanged(s: string)
    requires |s| != 0 ==> !Blank(s[0]) && !Blank(s[|s| - 1])
    ensures Trim(s) == s
  {
    assert s[0..] == s;
  }

  predicate StartsWith(s: string, prefix: string)
  {
    |prefix| <= |s| && s[..|prefix|] == prefix
  }

  /** String.lastIndexOf(c): the last index holding c, or -1. */
  function LastIndexOf(s: string, c: char): (r: int)
    ensures -1 <= r < |s|
    ensures r == -1 <==> c !in s
    ensures r >= 0 ==> s[r] == c && forall j :: r < j < |s| ==> s[j] != c
  {
    if |s| == 0 then -1
    else if s[|s| - 1] == c then |s| - 1
    else LastIndexOf(s[..|s| - 1], c)
  }

  /** String.substring(begin, end), or None where it throws StringIndexOutOfBoundsException. */
  function Substring(s: string, begin: int, end: int): (r: Option<string>)
  {
    if 0 <= begin <= end <= |s| then Some(s[begin..end]) else None
  }

  predicate IsDigit(c: char)
  {
    '0' <= c <= '9'
  }

  predicate AllDigits(s: string)
  {
    forall i :: 0 <= i < |s| ==> IsDigit(s[i])
  }

  /** The value of a string of decimal digits. */
  function DigitsValue(s: string): (r: nat)
    requires AllDigits(s)
  {
    if |s| == 0 then 0 else DigitsValue(s[..|s| - 1]) * 10 + (s[|s| - 1] as int - '0' as int)
  }

  /** Text of the form the parsers accept: at least one ASCII digit, after at most one sign. */
  predicate DecimalText(s: string)
  {
    (|s| != 0 && AllDigits(s)) || (|s| > 1 && (s[0] == '-' || s[0] == '+') && AllDigits(s[1..]))
  }

  /** The number such a text spells. */
  function DecimalTextValue(s: string): int
    requires DecimalText(s)
  {
    if s[0] == '-' then -(DigitsValue(s[1..]) as int)
    else if s[0] == '+' then DigitsValue(s[1..])
    else DigitsValue(s)
  }

  /**
   * Long.parseLong (min, max the range of long) and Integer.valueOf (the range
   * of int): an optional sign then at least one decimal digit, in range; None
   * where they throw NumberFormatException.
   */
  function ParseDecimal(s: string, min: int, max: int): (r: Option<int>)
    ensures r.Some? ==> DecimalText(s) && r.value == DecimalTextValue(s)
    ensures r.Some? ==> min <= r.value <= max
    ensures DecimalText(s) && min <= DecimalTextValue(s) <= max ==> r.Some?
    ensures !DecimalText(s) ==> r.None?
  {
    if |s| == 0 then None
    else
      var signed := s[0] == '-' || s[0] == '+';
      var digits := if signed then s[1..] else s;
      if |digits| == 0 || !AllDigits(digits) then None
      else
        var v: int := if s[0] == '-' then -(DigitsValue(digits) as int) else DigitsValue(digits);
        if min <= v <= max then Some(v) else None
  }

  /** The decimal digits of n, without leading zeros. */
  function DecimalDigits(n: nat): (r: string)
    ensures |r| != 0 && AllDigits(r)
  {
    if n < 10 then [('0' as int + n) as char]
    else DecimalDigits(n / 10) + [('0' as int + n % 10) as char]
  }

  /** Long.toString / Integer.toString. */
  function DecimalString(v: int): (r: string)
  {
    if v < 0 then "-" + DecimalDigits(-v) else DecimalDigits(v)
  }

  lemma {:induction false} DigitsValueOfDecimal(n: nat)
    ensures DigitsValue(DecimalDigits(n)) == n
  {
    if n >= 10 {
      var d := DecimalDigits(n);
      DigitsValueOfDecimal(n / 10);
      assert d[..|d| - 1] == DecimalDigits(n / 10);
    }
  }

  /** Parsing the decimal string of an in-range value gives the value back. */
  lemma ParseDecimalString(v: int, min: int, max: int)
    requires min <= v <= max
    ensures ParseDecimal(DecimalString(v), min, max) == Some(v)
  {
    var s := DecimalString(v);
    if v < 0 {
      DigitsValueOfDecimal(-v);
      assert s[1..] == DecimalDigits(-v);
    } else {
      DigitsValueOfDecimal(v);
    }
  }

  /** The exceptions the seed scan lets escape: getKnownAddresses then throws. */
  datatype SeedError = IndexOutOfBounds | NumberFormat

  /** The scan's state: the current stream and the addresses read so far. */
  datatype SeedScan = SeedScan(stream: int, found: seq<NetworkAddress>)

  /** The services and time NetworkAddress.Builder gives a seed address, which sets neither. */
  datatype SeedDefaults = SeedDefaults(services: int, time: int)

  /** The initial scan state: stream 1, nothing found. */
  const SeedStart := SeedScan(1, [])

  /** A line holding only blanks or a comment. */
  predicate Ignored(line: string)
  {
    StartsWith(line, "#") || |line| == 0
  }

  /**
   * One line of nodes.txt: comments and blank lines are ignored, "[stream N]"
   * switches the stream, any other line is host:port, split at the last colon.
   * A host that does not resolve skips the line; a missing bracket, colon or a
   * malformed number is an error that ends the scan.
   */
  function SeedLine(st: SeedScan, raw: string, resolve: string -> Option<seq<Byte>>, defaults: SeedDefaults)
    : (r: Result<SeedScan, SeedError>)
    ensures r.Ok? ==> |st.found| <= |r.value.found| <= |st.found| + 1 && r.value.found[..|st.found|] == st.found
    ensures r.Ok? && |r.value.found| > |st.found| ==>
      r.value.stream == st.stream && r.value.found[|st.found|].stream == st.stream
    ensures r.Ok? && !StartsWith(Trim(raw), "[stream") ==> r.value.stream == st.stream
  {
    var line := Trim(raw);
    if Ignored(line) then Ok(st)
    else if StartsWith(line, "[stream") then
      match Substring(line, 8, LastIndexOf(line, ']'))
      case None => Err(IndexOutOfBounds)
      case Some(text) =>
        match ParseDecimal(text, LongMin, LongMax)
        case None => Err(NumberFormat)
        case Some(n) => Ok(st.(stream := n))
    else
      var portIndex := LastIndexOf(line, ':');
      match Substring(line, 0, portIndex)
      case None => Err(IndexOutOfBounds)
      case Some(host) =>
        match resolve(host)
        case None => Ok(st)
        case Some(ip) =>
          match ParseDecimal(line[portIndex + 1..], IntMin, IntMax)
          case None => Err(NumberFormat)
          case Some(port) =>
            Ok(st.(found := st.found + [NetworkAddress(ip, port, defaults.services, st.stream, defaults.time)]))
  }

  /** The scan of the lines of nodes.txt, one after the other. */
  function ScanSeeds(lines: seq<string>, resolve: string -> Option<seq<Byte>>, defaults: SeedDefaults)
    : (r: Result<SeedScan, SeedError>)
    ensures r.Ok? ==> |r.value.found| <= |lines|
  {
    if |lines| == 0 then Ok(SeedStart)
    else
      match ScanSeeds(lines[..|lines| - 1], resolve, defaults)
      case Err(e) => Err(e)
      case Ok(st) => SeedLine(st, lines[|lines| - 1], resolve, defaults)
  }

  /** Once a line ends the scan with an error, the whole scan ends with that error. */
  lemma {:induction false} ScanSeedsStopsAtError(lines: seq<string>, n: nat, resolve: string -> Option<seq<Byte>>, defaults: SeedDefaults)
    requires n <= |lines| && ScanSeeds(lines[..n], resolve, defaults).Err?
    ensures ScanSeeds(lines, resolve, defaults).Err?
    ensures ScanSeeds(lines, resolve, defaults).error == ScanSeeds(lines[..n], resolve, defaults).error
  {
    if n < |lines| {
      assert lines[..|lines| - 1][..n] == lines[..n];
      ScanSeedsStopsAtError(lines[..|lines| - 1], n, resolve, defaults);
    } else {
      assert lines[..n] == lines;
    }
  }

  /** A line "host:port" with a resolvable host yields that host's address on that port in the current stream. */
  lemma SeedAddressLine(st: SeedScan, host: string, port: int, resolve: string -> Option<seq<Byte>>, defaults: SeedDefaults)
    requires |host| != 0 && !Blank(host[0]) && host[0] != '#' && !StartsWith(host, "[stream")
    requires IntMin <= port <= IntMax && resolve(host).Some?
    ensures SeedLine(st, host + ":" + DecimalString(port), resolve, defaults).Ok?
    ensures SeedLine(st, host + ":" + DecimalString(port), resolve, defaults).value
      == st.(found := st.found + [NetworkAddress(resolve(host).value, port, defaults.services, st.stream, defaults.time)])
  {
    var line := host + ":" + DecimalString(port);
    AddressLineShape(host, port);
    ParseDecimalString(port, IntMin, IntMax);
  }

  /** How the line host:port splits: it is already trimmed, not a comment or a stream header, and its last colon ends the host. */
  lemma AddressLineShape(host: string, port: int)
    requires |host| != 0 && !Blank(host[0]) && host[0] != '#' && !StartsWith(host, "[stream")
    ensures var line := host + ":" + DecimalString(port);
      Trim(line) == line && !Ignored(line) && !StartsWith(line, "[stream")
      && LastIndexOf(line, ':') == |host| && line[..|host|] == host && line[|host| + 1..] == DecimalString(port)
  {
    var digits := DecimalString(port);
    var line := host + ":" + digits;
    AddressLineTrimmed(host, digits, port);
    AddressLineNotHeader(host, digits);
    assert line[0] == host[0];
    AddressLineLastColon(host, digits, port);
    assert line[..|host|] == host;
    assert line[|host| + 1..] == digits;
  }

  lemma AddressLineTrimmed(host: string, digits: string, port: int)
    requires |host| != 0 && !Blank(host[0]) && digits == DecimalString(port)
    ensures Trim(host + ":" + digits) == host + ":" + digits
  {
    var line := host + ":" + digits;
    assert line[|line| - 1] == digits[|digits| - 1];
    assert !Blank(digits[|digits| - 1]) by {
      if port >= 0 { } else { assert digits[1..] == DecimalDigits(-port); }
    }
    assert line[0] == host[0];
    TrimUnchanged(line);
  }

  lemma AddressLineNotHeader(host: string, digits: string)
    requires !StartsWith(host, "[stream")
    ensures !StartsWith(host + ":" + digits, "[stream")
  {
    var line := host + ":" + digits;
    if |line| >= 7 {
      if |host| >= 7 {
        assert line[..7] == host[..7];
      } else {
        assert line[..7][|host|] == ':';
      }
    }
  }

  lemma AddressLineLastColon(host: string, digits: string, port: int)
    requires digits == DecimalString(port)
    ensures LastIndexOf(host + ":" + digits, ':') == |host|
  {
    var line := host + ":" + digits;
    ColonFree(port);
    forall j | |host| < j < |line| ensures line[j] != ':' {
      assert line[j] == digits[j - |host| - 1];
    }
    LastIndexOfUnique(line, ':', |host|);
  }

  /** The last index holding c is the one after which c does not occur. */
  lemma LastIndexOfUnique(s: string, c: char, p: nat)
    requires p < |s| && s[p] == c
    requires forall j :: p < j < |s| ==> s[j] != c
    ensures LastIndexOf(s, c) == p
  {
    assert c in s;
  }

  /** A decimal string holds no colon. */
  lemma ColonFree(v: int)
    ensures forall j :: 0 <= j < |DecimalString(v)| ==> DecimalString(v)[j] != ':'
  {
    if v < 0 {
      var s := DecimalString(v);
      forall j | 1 <= j < |s| ensures s[j] != ':' {
        assert s[j] == DecimalDigits(-v)[j - 1];
      }
    }
  }

  /** The line "[stream N]" switches the stream of the addresses after it to N. */
  lemma SeedStreamLine(st: SeedScan, n: int, resolve: string -> Option<seq<Byte>>, defaults: SeedDefaults)
    requires LongMin <= n <= LongMax
    ensures SeedLine(st, "[stream " + DecimalString(n) + "]", resolve, defaults).Ok?
    ensures SeedLine(st, "[stream " + DecimalString(n) + "]", resolve, defaults).value == st.(stream := n)
  {
    StreamLineShape(DecimalString(n));
    ParseDecimalString(n, LongMin, LongMax);
  }

  /** The line "[stream N]" is already trimmed and its closing bracket ends the number. */
  lemma StreamLineShape(digits: string)
    requires |digits| != 0
    ensures var line := "[stream " + digits + "]";
      Trim(line) == line && !Ignored(line) && StartsWith(line, "[stream")
      && Substring(line, 8, LastIndexOf(line, ']')) == Some(digits)
  {
    var line := "[stream " + digits + "]";
    TrimUnchanged(line);
    assert line[..7] == "[stream";
    LastIndexOfUnique(line, ']', |line| - 1);
    assert line[8..|line| - 1] == digits;
  }

  /** A line of blanks only is skipped. */
  lemma SeedBlankLine(st: SeedScan, raw: string, resolve: string -> Option<seq<Byte>>, defaults: SeedDefaults)
    requires forall i :: 0 <= i < |raw| ==> Blank(raw[i])
    ensures SeedLine(st, raw, resolve, defaults).Ok? && SeedLine(st, raw, resolve, defaults).value == st
  {
    assert LeadingBlanks(raw) == |raw|;
  }

  /** A comment line, "#" after any indentation, is skipped whatever follows the "#". */
  lemma SeedCommentLine(st: SeedScan, indent: string, comment: string, resolve: string -> Option<seq<Byte>>, defaults: SeedDefaults)
    requires forall i :: 0 <= i < |indent| ==> Blank(indent[i])
    ensures SeedLine(st, indent + "#" + comment, resolve, defaults).Ok?
    ensures SeedLine(st, indent + "#" + comment, resolve, defaults).value == st
  {
    var raw := indent + "#" + comment;
    assert raw[|indent|] == '#';
    assert LeadingBlanks(raw) == |indent|;
    var body := raw[|indent|..];
    assert body[0] == '#';
    assert TrailingBlanks(body) < |body|;
    assert Trim(raw)[0] == '#';
  }

  /**
   * host:text, already trimmed, with no colon after the host's: the line
   * is an address line, the host is what precedes the last colon and the
   * port text what follows it.
   */
  lemma HostPortShape(host: string, text: string)
    requires |host| != 0 && !Blank(host[0]) && host[0] != '#' && !StartsWith(host, "[stream")
    requires ':' !in text && (|text| != 0 ==> !Blank(text[|text| - 1]))
    ensures var line := host + ":" + text;
      Trim(line) == line && !Ignored(line) && !StartsWith(line, "[stream")
      && LastIndexOf(line, ':') == |host| && line[..|host|] == host && line[|host| + 1..] == text
  {
    var line := host + ":" + text;
    assert line[0] == host[0];
    assert !Blank(line[|line| - 1]) by {
      if |text| != 0 { assert line[|line| - 1] == text[|text| - 1]; }
    }
    TrimUnchanged(line);
    AddressLineNotHeader(host, text);
    forall j | |host| < j < |line| ensures line[j] != ':' {
      assert line[j] == text[j - |host| - 1];
    }
    LastIndexOfUnique(line, ':', |host|);
    assert line[..|host|] == host;
    assert line[|host| + 1..] == text;
  }

  /**
   * A host that does not resolve skips its line (UnknownHostException is an
   * IOException, caught per line), before the port is looked at.
   */
  lemma SeedUnresolvedLine(st: SeedScan, host: string, text: string, resolve: string -> Option<seq<Byte>>, defaults: SeedDefaults)
    requires |host| != 0 && !Blank(host[0]) && host[0] != '#' && !StartsWith(host, "[stream")
    requires ':' !in text && (|text| != 0 ==> !Blank(text[|text| - 1]))
    requires resolve(host).None?
    ensures SeedLine(st, host + ":" + text, resolve, defaults).Ok?
    ensures SeedLine(st, host + ":" + text, resolve, defaults).value == st
  {
    HostPortShape(host, text);
  }

  /** A resolvable host with a port that is not an int ends the scan with NumberFormatException. */
  lemma SeedBadPort(st: SeedScan, host: string, text: string, resolve: string -> Option<seq<Byte>>, defaults: SeedDefaults)
    requires |host| != 0 && !Blank(host[0]) && host[0] != '#' && !StartsWith(host, "[stream")
    requires ':' !in text && (|text| != 0 ==> !Blank(text[|text| - 1]))
    requires resolve(host).Some? && ParseDecimal(text, IntMin, IntMax).None?
    ensures SeedLine(st, host + ":" + text, resolve, defaults) == Err(NumberFormat)
  {
    HostPortShape(host, text);
  }

  /** An address line without a colon ends the scan with StringIndexOutOfBoundsException. */
  lemma SeedNoColon(st: SeedScan, line: string, resolve: string -> Option<seq<Byte>>, defaults: SeedDefaults)
    requires |line| != 0 && !Blank(line[0]) && !Blank(line[|line| - 1])
    requires line[0] != '#' && !StartsWith(line, "[stream") && ':' !in line
    ensures SeedLine(st, line, resolve, defaults) == Err(IndexOutOfBounds)
  {
    TrimUnchanged(line);
  }

  /** "[stream" with no closing bracket after it ends the scan with StringIndexOutOfBoundsException. */
  lemma SeedStreamNoBracket(st: SeedScan, rest: string, resolve: string -> Option<seq<Byte>>, defaults: SeedDefaults)
    requires ']' !in rest && (|rest| != 0 ==> !Blank(rest[|rest| - 1]))
    ensures SeedLine(st, "[stream" + rest, resolve, defaults) == Err(IndexOutOfBounds)
  {
    var line := "[stream" + rest;
    assert line[0] == '[';
    assert !Blank(line[|line| - 1]) by {
      if |rest| != 0 { assert line[|line| - 1] == rest[|rest| - 1]; }
    }
    TrimUnchanged(line);
    assert line[..7] == "[stream";
    assert ']' !in line by {
      forall j | 0 <= j < |line| ensures line[j] != ']' {
        if j >= 7 { assert line[j] == rest[j - 7]; }
      }
    }
  }

  /** "[stream N]" where N is not a long ends the scan with NumberFormatException. */
  lemma SeedStreamBadNumber(st: SeedScan, text: string, resolve: string -> Option<seq<Byte>>, defaults: SeedDefaults)
    requires |text| != 0 && ParseDecimal(text, LongMin, LongMax).None?
    ensures SeedLine(st, "[stream " + text + "]", resolve, defaults) == Err(NumberFormat)
  {
    StreamLineShape(text);
  }

  /** Lines that are blank or comments once trimmed. */
  predicate NoStreamLine(lines: seq<string>)
  {
    forall i :: 0 <= i < |lines| ==> !StartsWith(Trim(lines[i]), "[stream")
  }

  /** The scan is in stream 1 and every address found carries the builder's services and time. */
  predicate InDefaultStream(st: SeedScan, defaults: SeedDefaults)
  {
    st.stream == 1 && forall i :: 0 <= i < |st.found| ==>
      st.found[i].stream == 1 && st.found[i].services == defaults.services && st.found[i].time == defaults.time
  }

  /** A line that is not a stream line keeps the scan in the default stream. */
  lemma SeedLineKeepsDefaultStream(st: SeedScan, raw: string, resolve: string -> Option<seq<Byte>>, defaults: SeedDefaults)
    requires InDefaultStream(st, defaults) && !StartsWith(Trim(raw), "[stream")
    ensures SeedLine(st, raw, resolve, defaults).Ok? ==> InDefaultStream(SeedLine(st, raw, resolve, defaults).value, defaults)
  {
  }

  /**
   * Without a "[stream N]" line every seed address is in stream 1, and every
   * seed address carries the builder's services and time.
   */
  lemma {:induction false} SeedsDefaultToStreamOne(lines: seq<string>, resolve: string -> Option<seq<Byte>>, defaults: SeedDefaults)
    requires NoStreamLine(lines)
    ensures ScanSeeds(lines, resolve, defaults).Ok? ==>
      var st := ScanSeeds(lines, resolve, defaults).value;
      st.stream == 1 && forall i :: 0 <= i < |st.found| ==>
        st.found[i].stream == 1 && st.found[i].services == defaults.services && st.found[i].time == defaults.time
  {
    if |lines| != 0 {
      var init := lines[..|lines| - 1];
      assert NoStreamLine(init) by {
        forall i | 0 <= i < |init| ensures !StartsWith(Trim(init[i]), "[stream") {
          assert init[i] == lines[i];
        }
      }
      SeedsDefaultToStreamOne(init, resolve, defaults);
      var prev := ScanSeeds(init, resolve, defaults);
      if prev.Ok? {
        SeedLineKeepsDefaultStream(prev.value, lines[|lines| - 1], resolve, defaults);
      }
    }
  }

  // ---------------------------------------------------------------------
  // The registry
  // ---------------------------------------------------------------------

  class JdbcNodeRegistry {
    /** The Node table. */
    var nodes: Table

    constructor(stored: Table)
      ensures nodes == stored
    {
      nodes := stored;
    }

    /**
     * offerAddresses: each address is looked up by (ip, port, stream), then
     * updated or inserted by the rules of OfferOne; after more than
     * PurgeAbove addresses, rows older than StaleAge are deleted.
     */
    method OfferAddresses(addresses: seq<NetworkAddress>, now: int)
      modifies this
      ensures nodes == AfterOffer(old(nodes), addresses, now)
    {
      var i := 0;
      while i < |addresses|
        invariant 0 <= i <= |addresses|
        invariant nodes == Offered(old(nodes), addresses[..i], now)
      {
        var node := addresses[i];
        var key := KeyOf(node);
        if key in nodes {
          var time := nodes[key].time;
          if time < node.time && node.time <= now {
            nodes := nodes[key := RowOf(node)];
          }
        } else if node.time <= now {
          nodes := nodes[key := RowOf(node)];
        }
        assert addresses[..i + 1][..i] == addresses[..i];
        i := i + 1;
      }
      assert addresses[..i] == addresses;
      if |addresses| > PurgeAbove {
        var cutoff := now - StaleAge;
        nodes := map k | k in nodes && nodes[k].time >= cutoff :: nodes[k];
      }
    }

    /**
     * doGetKnownNodes: the rows in one of the streams, at most limit of them,
     * in the order the database picked at random.
     */
    method DoGetKnownNodes(limit: nat, streams: seq<int>, order: seq<NodeKey>) returns (result: seq<NetworkAddress>)
      requires VisitsEachOnce(nodes, order)
      ensures result == KnownNodes(nodes, limit, streams, order)
      ensures |result| == Min(limit, |RowsIn(nodes, streams)|)
      ensures forall i, j :: 0 <= i < j < |result| ==> KeyOf(result[i]) != KeyOf(result[j])
    {
      result := [];
      var i := 0;
      while i < |order|
        invariant 0 <= i <= |order|
        invariant result == KnownNodes(nodes, limit, streams, order[..i])
      {
        var k := order[i];
        assert order[..i + 1][..i] == order[..i];
        if |result| < limit && k in nodes && k.stream in streams {
          result := result + [AddressOf(k, nodes[k])];
        }
        i := i + 1;
      }
      assert order[..i] == order;
      KnownNodesCount(nodes, limit, streams, order);
    }

    /**
     * The scan of nodes.txt: the addresses it lists, or the exception that
     * escapes it.
     */
    method ReadSeeds(lines: seq<string>, resolve: string -> Option<seq<Byte>>, defaults: SeedDefaults)
      returns (r: Result<seq<NetworkAddress>, SeedError>)
      ensures r.Ok? == ScanSeeds(lines, resolve, defaults).Ok?
      ensures r.Ok? ==> r.value == ScanSeeds(lines, resolve, defaults).value.found
      ensures r.Err? ==> r.error == ScanSeeds(lines, resolve, defaults).error
    {
      var stream := 1;
      var found := [];
      var i := 0;
      while i < |lines|
        invariant 0 <= i <= |lines|
        invariant ScanSeeds(lines[..i], resolve, defaults).Ok?
        invariant ScanSeeds(lines[..i], resolve, defaults).value == SeedScan(stream, found)
      {
        assert lines[..i + 1][..i] == lines[..i];
        var step := SeedLine(SeedScan(stream, found), lines[i], resolve, defaults);
        if step.Err? {
          ScanSeedsStopsAtError(lines, i + 1, resolve, defaults);
          return Err(step.error);
        }
        stream, found := step.value.stream, step.value.found;
        i := i + 1;
      }
      assert lines[..i] == lines;
      return Ok(found);
    }

    /**
     * getKnownAddresses: the query's rows; only when it returns none, the seed
     * list is offered to the table and the query is run again.
     */
    method GetKnownAddresses(limit: nat, streams: seq<int>, order: seq<NodeKey>, lines: seq<string>,
                             resolve: string -> Option<seq<Byte>>, defaults: SeedDefaults, now: int,
                             reorder: seq<NodeKey>)
      returns (r: Result<seq<NetworkAddress>, SeedError>)
      requires VisitsEachOnce(nodes, order)
      requires ScanSeeds(lines, resolve, defaults).Ok? ==>
        VisitsEachOnce(AfterOffer(nodes, ScanSeeds(lines, resolve, defaults).value.found, now), reorder)
      modifies this
      ensures !NothingToList(old(nodes), limit, streams) ==>
        r == Ok(KnownNodes(old(nodes), limit, streams, order)) && nodes == old(nodes)
      ensures var scan := ScanSeeds(lines, resolve, defaults);
        NothingToList(old(nodes), limit, streams) && scan.Err? ==> r == Err(scan.error) && nodes == old(nodes)
      ensures var scan := ScanSeeds(lines, resolve, defaults);
        NothingToList(old(nodes), limit, streams) && scan.Ok? ==>
          nodes == AfterOffer(old(nodes), scan.value.found, now) && r == Ok(KnownNodes(nodes, limit, streams, reorder))
      ensures r.Ok? ==> |r.value| == Min(limit, |RowsIn(nodes, streams)|)
      ensures r.Ok? ==> forall i, j :: 0 <= i < j < |r.value| ==> KeyOf(r.value[i]) != KeyOf(r.value[j])
    {
      var result := DoGetKnownNodes(limit, streams, order);
      KnownNodesEmpty(nodes, limit, streams, order);
      if |result| != 0 {
        return Ok(result);
      }
      var seeds := ReadSeeds(lines, resolve, defaults);
      if seeds.Err? {
        return Err(seeds.error);
      }
      OfferAddresses(seeds.value, now);
      result := DoGetKnownNodes(limit, streams, reorder);
      return Ok(result);
    }
  }
}
