/**
 * The routing table: entries of (network, subnet mask, interface, next hop, metric),
 * kept sorted by mask, longest first, so that a first-match scan is a longest-prefix
 * match (section 5.2.4.3 of RFC 1812). Networks are written in CIDR notation
 * (section 3.1 of RFC 4632). Addresses and masks are host-order 32-bit values.
 */
module Routing {
  import opened Wrappers
  import opened Bytes
  import opened Bits
  import DottedQuad

  datatype RouteEntry = RouteEntry(network: u32, subnetMask: u32, iface: string, nextHop: u32, metric: int)

  /** A network and its mask, as `parseCIDR` returns them. */
  datatype Prefix = Prefix(network: u32, mask: u32)

  ghost predicate IsPrefixMask(m: u32)
  {
    exists n: nat :: n <= 32 && PrefixMask(n) == m
  }

  /**
   * CIDR text the model accepts: a dotted quad, optionally followed by '/' and a
   * decimal prefix length of at most 32.
   */
  predicate WellFormedCidr(cidr: string)
  {
    match DottedQuad.Find(cidr, '/', 0)
    case None => DottedQuad.Parse(cidr).Some?
    case Some(k) =>
      DottedQuad.Parse(cidr[..k]).Some?
      && DottedQuad.ParseDecimal(cidr[k + 1..]).Some?
      && DottedQuad.ParseDecimal(cidr[k + 1..]).value <= 32
  }

  /**
   * `stringToIP`: the host-order address of a dotted quad, every field read as decimal
   * (`inet_aton` would read a field with a leading 0 as octal).
   */
  function StringToIP(ipStr: string): u32
    requires DottedQuad.Parse(ipStr).Some?
  {
    DottedQuad.Parse(ipStr).value
  }

  /** The address text: what precedes the '/', or the whole text when there is none. */
  function CidrAddressText(cidr: string): string
  {
    match DottedQuad.Find(cidr, '/', 0)
    case None => cidr
    case Some(k) => cidr[..k]
  }

  /** The prefix length written after the '/'; a bare address is a /32 host route. */
  function CidrPrefixLength(cidr: string): (n: nat)
    requires WellFormedCidr(cidr)
    ensures n <= 32
  {
    match DottedQuad.Find(cidr, '/', 0)
    case None => 32
    case Some(k) => DottedQuad.ParseDecimal(cidr[k + 1..]).value
  }

  /**
   * `parseCIDR`: the written address masked by the prefix mask of the written
   * length; without a '/', the address itself as a /32 host route.
   */
  function ParseCIDR(cidr: string): (r: Prefix)
    requires WellFormedCidr(cidr)
    ensures r.mask == PrefixMask(CidrPrefixLength(cidr))
    ensures r.network == BitAnd(StringToIP(CidrAddressText(cidr)), r.mask)
  {
    match DottedQuad.Find(cidr, '/', 0)
    case None =>
      var ip := StringToIP(cidr);
      HostMask(ip);
      Prefix(ip, 0xFFFF_FFFF)
    case Some(k) =>
      var prefixLen := DottedQuad.ParseDecimal(cidr[k + 1..]).value;
      var mask := SourceMask(prefixLen);
      Prefix(BitAnd(StringToIP(cidr[..k]), mask), mask)
  }

  /**
   * The mask as `parseCIDR` computes it: 0 for /0, otherwise all ones shifted left
   * by `32 - prefixLen`. It is the prefix mask of `prefixLen`.
   */
  function SourceMask(prefixLen: nat): (m: u32)
    requires prefixLen <= 32
    ensures m == PrefixMask(prefixLen)
  {
    if prefixLen == 0 then
      PrefixMaskEnds();
      0
    else
      ShiftedMask(prefixLen);
      ShiftLeft32(0xFFFF_FFFF, 32 - prefixLen)
  }

  /** The /32 mask is all ones, and it leaves an address unchanged. */
  lemma HostMask(ip: u32)
    ensures PrefixMask(32) == 0xFFFF_FFFF && BitAnd(ip, 0xFFFF_FFFF) == ip
  {
    PrefixMaskEnds();
    KeepsTopBits(ip, 32);
  }

  /** A parsed network has a prefix mask and no host bits. */
  lemma ParseCIDRWellFormed(cidr: string)
    requires WellFormedCidr(cidr)
    ensures IsPrefixMask(ParseCIDR(cidr).mask)
    ensures BitAnd(ParseCIDR(cidr).network, ParseCIDR(cidr).mask) == ParseCIDR(cidr).network
  {
    var p := ParseCIDR(cidr);
    MaskTwice(StringToIP(CidrAddressText(cidr)), p.mask);
  }

  /** A bare address is a /32 host route whose network is the address itself. */
  lemma BareAddressIsHostRoute(cidr: string)
    requires WellFormedCidr(cidr) && DottedQuad.Find(cidr, '/', 0).None?
    ensures ParseCIDR(cidr) == Prefix(StringToIP(cidr), 0xFFFF_FFFF)
  {
    HostMask(StringToIP(cidr));
  }

  /**
   * CIDR text written canonically, "a.b.c.d/n", is well formed and parses to the
   * address masked by the prefix mask of length `n`.
   */
  lemma FormattedCidr(a: u8, b: u8, c: u8, d: u8, n: nat)
    requires n <= 32
    ensures WellFormedCidr(DottedQuad.Format(a, b, c, d) + "/" + DottedQuad.Decimal(n))
    ensures ParseCIDR(DottedQuad.Format(a, b, c, d) + "/" + DottedQuad.Decimal(n))
            == Prefix(BitAnd(DottedQuad.Address(a, b, c, d), PrefixMask(n)), PrefixMask(n))
  {
    var text := DottedQuad.Format(a, b, c, d);
    var len := DottedQuad.Decimal(n);
    DottedQuad.FormatThenParse(a, b, c, d);
    DottedQuad.FormatCharacters(a, b, c, d);
    DottedQuad.DecimalRoundTrip(n);
    SlashFound(text, len);
    var cidr := text + "/" + len;
    assert cidr[..|text|] == text && cidr[|text| + 1..] == len;
  }

  /** "a.b.c.d/32" is the host route to a.b.c.d. */
  lemma HostRoute(a: u8, b: u8, c: u8, d: u8, text: string)
    requires text == DottedQuad.Format(a, b, c, d) + "/" + DottedQuad.Decimal(32)
    ensures WellFormedCidr(text) && ParseCIDR(text) == Prefix(DottedQuad.Address(a, b, c, d), 0xFFFF_FFFF)
  {
    FormattedCidr(a, b, c, d, 32);
    PrefixMaskEnds();
    KeepsTopBitsMod(DottedQuad.Address(a, b, c, d), 32);
  }

  /** "a.b.c.0/24" is the network a.b.c.0 with mask 255.255.255.0. */
  lemma NetworkRoute24(a: u8, b: u8, c: u8, text: string)
    requires text == DottedQuad.Format(a, b, c, 0) + "/" + DottedQuad.Decimal(24)
    ensures WellFormedCidr(text) && ParseCIDR(text) == Prefix(DottedQuad.Address(a, b, c, 0), 0xFFFF_FF00)
  {
    var ip := DottedQuad.Address(a, b, c, 0);
    FormattedCidr(a, b, c, 0, 24);
    Pow2Values();
    KeepsTopBitsMod(ip, 24);
    DivModUnique(ip, 0x100, a as int * 0x1_0000 + b as int * 0x100 + c as int, 0);
  }

  /** "a.0.0.0/8" is the network a.0.0.0 with mask 255.0.0.0. */
  lemma NetworkRoute8(a: u8, text: string)
    requires text == DottedQuad.Format(a, 0, 0, 0) + "/" + DottedQuad.Decimal(8)
    ensures WellFormedCidr(text) && ParseCIDR(text) == Prefix(DottedQuad.Address(a, 0, 0, 0), 0xFF00_0000)
  {
    var ip := DottedQuad.Address(a, 0, 0, 0);
    FormattedCidr(a, 0, 0, 0, 8);
    Pow2Values();
    KeepsTopBitsMod(ip, 8);
    DivModUnique(ip, 0x100_0000, a as int, 0);
  }

  /** "0.0.0.0/0" matches every destination: network 0, mask 0. */
  lemma AnyDestinationRoute(text: string)
    requires text == DottedQuad.Format(0, 0, 0, 0) + "/" + DottedQuad.Decimal(0)
    ensures WellFormedCidr(text) && ParseCIDR(text) == Prefix(0, 0)
  {
    FormattedCidr(0, 0, 0, 0, 0);
    PrefixMaskEnds();
  }

  /** In "address/length" text, the first '/' is the one after the address. */
  lemma SlashFound(text: string, len: string)
    requires forall i :: 0 <= i < |text| ==> DottedQuad.IsDigit(text[i]) || text[i] == '.'
    ensures DottedQuad.Find(text + "/" + len, '/', 0) == Some(|text|)
  {
    var cidr := text + "/" + len;
    assert cidr[|text|] == '/';
    assert cidr[|text|] in cidr[0..];
    assert forall i :: 0 <= i < |text| ==> cidr[i] == text[i] && cidr[i] != '/';
    assert forall k :: |text| < k <= |cidr| ==> cidr[|text|] in cidr[0..k];
  }

  /** A next hop is either empty (directly connected) or a dotted quad. */
  predicate WellFormedNextHop(nextHop: string)
  {
    nextHop == [] || DottedQuad.Parse(nextHop).Some?
  }

  /** The entry `addRoute` stores; an empty next hop is stored as 0. */
  function MakeEntry(networkCidr: string, iface: string, nextHop: string, metric: int): (e: RouteEntry)
    requires WellFormedCidr(networkCidr) && WellFormedNextHop(nextHop)
    ensures e.network == ParseCIDR(networkCidr).network && e.subnetMask == ParseCIDR(networkCidr).mask
    ensures e.iface == iface && e.metric == metric
    ensures nextHop == [] ==> e.nextHop == 0
    ensures nextHop != [] ==> e.nextHop == StringToIP(nextHop)
  {
    var p := ParseCIDR(networkCidr);
    RouteEntry(p.network, p.mask, iface, if nextHop == [] then 0 else StringToIP(nextHop), metric)
  }

  /** An entry whose network has no host bits and whose mask is a prefix mask. */
  ghost predicate WellFormedEntry(e: RouteEntry)
  {
    BitAnd(e.network, e.subnetMask) == e.network && IsPrefixMask(e.subnetMask)
  }

  /** Every entry `addRoute` builds is well formed. */
  lemma MakeEntryWellFormed(networkCidr: string, iface: string, nextHop: string, metric: int)
    requires WellFormedCidr(networkCidr) && WellFormedNextHop(nextHop)
    ensures WellFormedEntry(MakeEntry(networkCidr, iface, nextHop, metric))
  {
    ParseCIDRWellFormed(networkCidr);
  }

  /** `dst` lies inside the entry's network. */
  predicate Matches(e: RouteEntry, dst: u32)
  {
    BitAnd(dst, e.subnetMask) == e.network
  }

  /** Masks never increase along the table (the order `std::sort` establishes). */
  predicate SortedByMask(routes: seq<RouteEntry>)
  {
    forall a, b :: 0 <= a < b < |routes| ==> routes[a].subnetMask >= routes[b].subnetMask
  }

  /** The index of the first entry at or after `from` that matches `dst`. */
  function FirstMatchFrom(routes: seq<RouteEntry>, dst: u32, from: nat): (r: Option<nat>)
    requires from <= |routes|
    ensures r.Some? ==> from <= r.value < |routes| && Matches(routes[r.value], dst)
                        && forall i :: from <= i < r.value ==> !Matches(routes[i], dst)
    ensures r.None? ==> forall i :: from <= i < |routes| ==> !Matches(routes[i], dst)
    decreases |routes| - from
  {
    if from == |routes| then None
    else if Matches(routes[from], dst) then Some(from)
    else FirstMatchFrom(routes, dst, from + 1)
  }

  function FirstMatch(routes: seq<RouteEntry>, dst: u32): Option<nat>
  {
    FirstMatchFrom(routes, dst, 0)
  }

  /** The interface of the first matching entry, or "" when nothing matches. */
  function Lookup(routes: seq<RouteEntry>, dst: u32): string
  {
    match FirstMatch(routes, dst)
    case Some(k) => routes[k].iface
    case None => ""
  }

  /**
   * `routes` with `e` added and the order restored: `e` goes after every entry whose
   * mask is at least its own and before the shorter-mask entries that follow them.
   */
  function InsertByMask(routes: seq<RouteEntry>, e: RouteEntry): (r: seq<RouteEntry>)
    ensures |r| == |routes| + 1
  {
    if |routes| == 0 then [e]
    else if routes[|routes| - 1].subnetMask < e.subnetMask
    then InsertByMask(routes[..|routes| - 1], e) + [routes[|routes| - 1]]
    else routes + [e]
  }

  class RoutingTable {
    var routes: seq<RouteEntry>

    /** Every entry is well formed and the table is sorted by mask, longest first. */
    ghost predicate Valid()
      reads this
    {
      SortedByMask(routes) && forall e :: e in routes ==> WellFormedEntry(e)
    }

    constructor()
      ensures Valid() && routes == []
    {
      routes := [];
    }

    /**
     * `addRoute`: build the entry from its CIDR text and next hop, then add it to the
     * table. The table stays sorted and well formed, and holds the old entries plus
     * the new one.
     */
    method AddRoute(networkCidr: string, iface: string, nextHop: string, metric: int)
      requires Valid()
      requires WellFormedCidr(networkCidr) && WellFormedNextHop(nextHop)
      modifies this
      ensures Valid()
      ensures routes == InsertByMask(old(routes), MakeEntry(networkCidr, iface, nextHop, metric))
      ensures multiset(routes) == multiset(old(routes)) + multiset{MakeEntry(networkCidr, iface, nextHop, metric)}
    {
      var entry := MakeEntry(networkCidr, iface, nextHop, metric);
      InsertEntry(entry);
      MakeEntryWellFormed(networkCidr, iface, nextHop, metric);
      InsertKeepsOrder(old(routes), entry);
      InsertPermutes(old(routes), entry);
      forall x | x in routes
        ensures WellFormedEntry(x)
      {
        assert x in multiset(routes);
      }
    }

    /**
     * The `push_back` and re-sort of `addRoute`: append the entry, then move it towards
     * the front past every entry with a shorter mask.
     */
    method InsertEntry(entry: RouteEntry)
      modifies this
      ensures routes == InsertByMask(old(routes), entry)
    {
      ghost var before := routes;
      var table := routes + [entry];
      var j := |table| - 1;
      assert before[..j] == before;
      while j > 0 && table[j - 1].subnetMask < table[j].subnetMask
        invariant 0 <= j <= |before|
        invariant table == before[..j] + [entry] + before[j..]
        invariant InsertByMask(before, entry) == InsertByMask(before[..j], entry) + before[j..]
      {
        InsertStep(before, entry, j, table);
        InsertShift(before, entry, j);
        table := table[j - 1 := table[j]][j := table[j - 1]];
        j := j - 1;
      }
      routes := table;
      assert before[..j] + [entry] == InsertByMask(before[..j], entry);
    }

    /** `lookupRoute`: scan the table in order and return the first match's interface. */
    method LookupRoute(dst: u32) returns (iface: string)
      ensures iface == Lookup(routes, dst)
    {
      var i := 0;
      while i < |routes|
        invariant 0 <= i <= |routes|
        invariant FirstMatch(routes, dst) == FirstMatchFrom(routes, dst, i)
      {
        if Matches(routes[i], dst) {
          return routes[i].iface;
        }
        i := i + 1;
      }
      return "";
    }
  }

  /** One step of the move: the new entry passes the shorter-mask entry before it. */
  lemma InsertStep(routes: seq<RouteEntry>, e: RouteEntry, j: nat, s: seq<RouteEntry>)
    requires 0 < j <= |routes| && s == routes[..j] + [e] + routes[j..]
    requires s[j - 1].subnetMask < s[j].subnetMask
    ensures s[j - 1 := s[j]][j := s[j - 1]] == routes[..j - 1] + [e] + routes[j - 1..]
  {
    assert s[j] == e && s[j - 1] == routes[j - 1];
    var t := routes[..j - 1] + [e] + routes[j - 1..];
    assert s[j - 1 := e][j := routes[j - 1]] == t;
  }

  /** The same step seen in the result: the entry passed over moves from the sorted part into the tail. */
  lemma InsertShift(routes: seq<RouteEntry>, e: RouteEntry, j: nat)
    requires 0 < j <= |routes| && routes[j - 1].subnetMask < e.subnetMask
    requires InsertByMask(routes, e) == InsertByMask(routes[..j], e) + routes[j..]
    ensures InsertByMask(routes, e) == InsertByMask(routes[..j - 1], e) + routes[j - 1..]
  {
    var front, head := routes[..j - 1], InsertByMask(routes[..j - 1], e);
    assert routes[..j][..j - 1] == front;
    assert InsertByMask(routes[..j], e) == head + [routes[j - 1]];
    assert [routes[j - 1]] + routes[j..] == routes[j - 1..];
    assert head + [routes[j - 1]] + routes[j..] == head + ([routes[j - 1]] + routes[j..]);
  }

  /** Inserting into a sorted table keeps it sorted. */
  lemma {:induction false} InsertKeepsOrder(routes: seq<RouteEntry>, e: RouteEntry)
    requires SortedByMask(routes)
    ensures SortedByMask(InsertByMask(routes, e))
  {
    if |routes| > 0 {
      var init := routes[..|routes| - 1];
      var last := routes[|routes| - 1];
      if last.subnetMask < e.subnetMask {
        assert SortedByMask(init);
        InsertKeepsOrder(init, e);
        InsertPermutes(init, e);
        var r := InsertByMask(init, e);
        forall a | 0 <= a < |r|
          ensures r[a].subnetMask >= last.subnetMask
        {
          assert r[a] in multiset(r);
          if r[a] != e {
            assert r[a] in multiset(init);
            var i :| 0 <= i < |init| && init[i] == r[a];
            assert routes[i].subnetMask >= routes[|routes| - 1].subnetMask;
          }
        }
        var t := r + [last];
        assert t == InsertByMask(routes, e);
        forall a, b | 0 <= a < b < |t|
          ensures t[a].subnetMask >= t[b].subnetMask
        {
          if b < |r| {
            assert t[a] == r[a] && t[b] == r[b];
          }
        }
      } else {
        var t := routes + [e];
        forall a, b | 0 <= a < b < |t|
          ensures t[a].subnetMask >= t[b].subnetMask
        {
          if b == |routes| && a < |routes| - 1 {
            assert routes[a].subnetMask >= last.subnetMask;
          }
        }
      }
    }
  }

  /**
   * Where the new entry lands: after a run of entries whose last mask is at least its
   * own, and before any entries whose masks are all shorter.
   */
  lemma {:induction false} InsertLands(front: seq<RouteEntry>, back: seq<RouteEntry>, e: RouteEntry)
    requires |front| == 0 || front[|front| - 1].subnetMask >= e.subnetMask
    requires forall i :: 0 <= i < |back| ==> back[i].subnetMask < e.subnetMask
    ensures InsertByMask(front + back, e) == front + [e] + back
  {
    if |back| == 0 {
      assert front + back == front;
    } else {
      var init, last := back[..|back| - 1], back[|back| - 1];
      LastOfAppend(front, back);
      LastOfAppend(front + [e], back);
      assert InsertByMask(front + back, e) == InsertByMask(front + init, e) + [last];
      InsertLands(front, init, e);
    }
  }

  /** Dropping the last entry of `front + back`, for a non-empty `back`, drops it from `back`. */
  lemma LastOfAppend(front: seq<RouteEntry>, back: seq<RouteEntry>)
    requires |back| > 0
    ensures var s := front + back;
            s[..|s| - 1] == front + back[..|back| - 1] && s[|s| - 1] == back[|back| - 1]
            && s == front + back[..|back| - 1] + [back[|back| - 1]]
  {
    var s := front + back;
    assert s[..|s| - 1] == front + back[..|back| - 1];
    assert back == back[..|back| - 1] + [back[|back| - 1]];
  }

  /** Inserting adds exactly the new entry. */
  lemma {:induction false} InsertPermutes(routes: seq<RouteEntry>, e: RouteEntry)
    ensures multiset(InsertByMask(routes, e)) == multiset(routes) + multiset{e}
  {
    if |routes| > 0 && routes[|routes| - 1].subnetMask < e.subnetMask {
      var init := routes[..|routes| - 1];
      InsertPermutes(init, e);
      assert routes == init + [routes[|routes| - 1]];
    }
  }

  /**
   * For an entry whose mask has prefix length `n`, `dst` matches exactly when `dst`
   * with its low `32 - n` bits cleared is the entry's network.
   */
  lemma MatchesTopBits(e: RouteEntry, dst: u32, n: nat)
    requires n <= 32 && e.subnetMask == PrefixMask(n)
    ensures Matches(e, dst) <==> dst - dst % Pow2(32 - n) == e.network
  {
    KeepsTopBitsMod(dst, n);
  }

  /**
   * In a sorted table the first match is a longest-prefix match: a matching entry
   * with prefix length `n` is never longer than the entry found, of length `nk`.
   */
  lemma LongestPrefixMatch(routes: seq<RouteEntry>, dst: u32, i: nat, n: nat, nk: nat)
    requires SortedByMask(routes)
    requires FirstMatch(routes, dst).Some?
    requires i < |routes| && Matches(routes[i], dst)
    requires n <= 32 && nk <= 32
    requires routes[i].subnetMask == PrefixMask(n)
    requires routes[FirstMatch(routes, dst).value].subnetMask == PrefixMask(nk)
    ensures n <= nk
  {
    var k := FirstMatch(routes, dst).value;
    assert k <= i;
    assert routes[i].subnetMask <= routes[k].subnetMask;
    PrefixMaskMonotone(n, nk);
  }

  /** A 0.0.0.0/0 entry matches every destination, so some entry is always found. */
  lemma DefaultRouteMatchesAll(routes: seq<RouteEntry>, dst: u32, d: nat)
    requires d < |routes| && routes[d].network == 0 && routes[d].subnetMask == 0
    ensures FirstMatch(routes, dst).Some?
    ensures FirstMatch(routes, dst).value <= d
  {
    assert Matches(routes[d], dst);
  }

  /**
   * In a sorted table, the interface found is that of an entry of the table that
   * matches `dst` with the longest mask among the matches.
   */
  lemma LookupFindsLongestMatch(routes: seq<RouteEntry>, dst: u32)
    requires SortedByMask(routes)
    ensures Lookup(routes, dst) != "" ==>
              exists k :: 0 <= k < |routes| && Matches(routes[k], dst) && routes[k].iface == Lookup(routes, dst)
                          && forall i :: 0 <= i < |routes| && Matches(routes[i], dst) ==> routes[i].subnetMask <= routes[k].subnetMask
    ensures (forall i :: 0 <= i < |routes| ==> routes[i].iface != "") ==>
              (Lookup(routes, dst) == "" <==> forall i :: 0 <= i < |routes| ==> !Matches(routes[i], dst))
  {
    var found := FirstMatch(routes, dst);
    if found.Some? {
      var k := found.value;
      assert Matches(routes[k], dst) && Lookup(routes, dst) == routes[k].iface;
      forall i | 0 <= i < |routes| && Matches(routes[i], dst)
        ensures routes[i].subnetMask <= routes[k].subnetMask
      {
        assert k <= i;
      }
    }
  }
}
