/** background/listen.js: the background script that offers to move a page
    into the group its domain is assigned to. It percent-encodes the
    requested URL into the confirmation page's address, keeps the domains a
    tab was exempted for, flips the "never ask" flag of an assignment, and
    dispatches the messages of the confirmation page.

    Browser reads (the tab, the stored assignment, the tab's session value,
    the extension URL, the host name URL parsing yields) are parameters;
    browser writes are returned as a list of effects. */
module Listen {
  import opened Common
  import opened PageSettings

  // ----- encodeURL -----

  /** The characters encodeURIComponent leaves as they are (section 18.2.6.5
      of ECMA-262): ASCII letters and digits and - _ . ! ~ * ' ( ). */
  predicate IsComponentUnescaped(c: char) {
    ('A' <= c <= 'Z') || ('a' <= c <= 'z') || ('0' <= c <= '9') || c in "-_.!~*'()"
  }

  /** The unreserved characters of section 2.3 of RFC 3986. */
  predicate IsUnreserved(c: char) {
    ('A' <= c <= 'Z') || ('a' <= c <= 'z') || ('0' <= c <= '9') || c in "-._~"
  }

  /** The five characters encodeURL escapes after encodeURIComponent. */
  predicate IsReplaced(c: char) {
    c in "!'()*"
  }

  /** The digit encodeURIComponent prints for 0..15 (upper case). */
  function UpperHexDigit(d: nat): (c: char)
    requires d < 16
    ensures IsHexDigit(c) && HexDigitValue(c) == d
  {
    if d < 10 then ('0' as int + d) as char else ('A' as int + d - 10) as char
  }

  /** The UTF-8 bytes of one code point. */
  function Utf8(c: char): (bs: seq<nat>)
    ensures 1 <= |bs| <= 4 && forall k :: 0 <= k < |bs| ==> bs[k] < 256
    ensures c as int < 128 ==> bs == [c as int]
  {
    var n := c as int;
    if n < 0x80 then [n]
    else if n < 0x800 then [0xC0 + n / 64, 0x80 + n % 64]
    else if n < 0x10000 then [0xE0 + n / 4096, 0x80 + (n / 64) % 64, 0x80 + n % 64]
    else [0xF0 + n / 262144, 0x80 + (n / 4096) % 64, 0x80 + (n / 64) % 64, 0x80 + n % 64]
  }

  /** The UTF-8 bytes of a string. */
  function Utf8String(s: string): (bs: seq<nat>)
  {
    if |s| == 0 then [] else Utf8(s[0]) + Utf8String(s[1..])
  }

  predicate AllBytes(bs: seq<nat>) {
    forall k :: 0 <= k < |bs| ==> bs[k] < 256
  }

  /** Each byte as `%` and two upper-case hexadecimal digits. */
  function Triples(bs: seq<nat>): (t: string)
    requires AllBytes(bs)
    ensures |t| == 3 * |bs|
    ensures forall i :: 0 <= i < |t| ==> t[i] == '%' || IsHexDigit(t[i])
  {
    if |bs| == 0 then [] else ['%', UpperHexDigit(bs[0] / 16), UpperHexDigit(bs[0] % 16)] + Triples(bs[1..])
  }

  /** encodeURIComponent: unescaped characters as they are, every other
      code point as the triples of its UTF-8 bytes. */
  function EncodeURIComponent(s: string): (r: string)
    ensures |r| >= |s|
    ensures forall i :: 0 <= i < |r| ==> IsComponentUnescaped(r[i]) || r[i] == '%'
    ensures (forall k :: 0 <= k < |s| ==> IsComponentUnescaped(s[k])) ==> r == s
  {
    if |s| == 0 then []
    else (if IsComponentUnescaped(s[0]) then [s[0]] else Triples(Utf8(s[0]))) + EncodeURIComponent(s[1..])
  }

  /** The replace callback of encodeURL over a whole string: each of
      ! ' ( ) * becomes `%` and its code in hexadecimal as Number.toString(16)
      prints it, so `*` becomes the lower-case "%2a". */
  function ReplaceReserved(t: string): (r: string)
  {
    if |t| == 0 then []
    else (if IsReplaced(t[0]) then "%" + Hex(t[0] as int) else [t[0]]) + ReplaceReserved(t[1..])
  }

  /** encodeURL: a URL made only of unreserved characters comes out as it is. */
  function EncodeURL(url: string): (r: string)
    ensures (forall k :: 0 <= k < |url| ==> IsUnreserved(url[k])) ==> r == url
  {
    assert (forall k :: 0 <= k < |url| ==> IsUnreserved(url[k])) ==>
      ReplaceReserved(EncodeURIComponent(url)) == url by {
      if forall k :: 0 <= k < |url| ==> IsUnreserved(url[k]) {
        ReplaceNone(EncodeURIComponent(url));
      }
    }
    ReplaceReserved(EncodeURIComponent(url))
  }

  /** What encodeURL makes of one character. */
  function EncodedChar(c: char): (r: string)
  {
    if IsReplaced(c) then "%" + Hex(c as int)
    else if IsComponentUnescaped(c) then [c]
    else Triples(Utf8(c))
  }

  /** encodeURL, one character after the other. */
  function EncodedChars(s: string): string {
    if |s| == 0 then [] else EncodedChar(s[0]) + EncodedChars(s[1..])
  }

  lemma {:induction false} ReplaceAppend(a: string, b: string)
    ensures ReplaceReserved(a + b) == ReplaceReserved(a) + ReplaceReserved(b)
  {
    if |a| > 0 {
      ReplaceAppend(a[1..], b);
      assert (a + b)[0] == a[0] && (a + b)[1..] == a[1..] + b;
      var h := if IsReplaced(a[0]) then "%" + Hex(a[0] as int) else [a[0]];
      assert ReplaceReserved(a) == h + ReplaceReserved(a[1..]);
      assert ReplaceReserved(a + b) == h + ReplaceReserved(a[1..] + b);
    } else {
      assert a + b == b;
    }
  }

  /** A string without the five characters is left as it is. */
  lemma {:induction false} ReplaceNone(t: string)
    requires forall i :: 0 <= i < |t| ==> !IsReplaced(t[i])
    ensures ReplaceReserved(t) == t
  {
    if |t| > 0 {
      ReplaceNone(t[1..]);
      assert t == [t[0]] + t[1..];
    }
  }

  lemma ReplaceTriples(bs: seq<nat>)
    requires AllBytes(bs)
    ensures ReplaceReserved(Triples(bs)) == Triples(bs)
  {
    ReplaceNone(Triples(bs));
  }

  /** encodeURL works character by character. */
  lemma {:induction false} EncodeURLChars(s: string)
    ensures EncodeURL(s) == EncodedChars(s)
  {
    if |s| > 0 {
      EncodeURLChars(s[1..]);
      var head := if IsComponentUnescaped(s[0]) then [s[0]] else Triples(Utf8(s[0]));
      ReplaceAppend(head, EncodeURIComponent(s[1..]));
      if !IsComponentUnescaped(s[0]) {
        ReplaceTriples(Utf8(s[0]));
      }
    }
  }

  /** A string made of RFC 3986 unreserved characters and `%`-hex triples. */
  predicate PercentEncoded(t: string) {
    || |t| == 0
    || (IsUnreserved(t[0]) && PercentEncoded(t[1..]))
    || (|t| >= 3 && t[0] == '%' && IsHexDigit(t[1]) && IsHexDigit(t[2]) && PercentEncoded(t[3..]))
  }

  lemma {:induction false} PercentEncodedAppend(a: string, b: string)
    requires PercentEncoded(a) && PercentEncoded(b)
    ensures PercentEncoded(a + b)
  {
    if |a| > 0 {
      if IsUnreserved(a[0]) && PercentEncoded(a[1..]) {
        PercentEncodedAppend(a[1..], b);
        assert (a + b)[0] == a[0] && (a + b)[1..] == a[1..] + b;
      } else {
        assert |a| >= 3 && a[0] == '%' && IsHexDigit(a[1]) && IsHexDigit(a[2]) && PercentEncoded(a[3..]);
        PercentEncodedAppend(a[3..], b);
        assert (a + b)[0] == a[0] && (a + b)[1] == a[1] && (a + b)[2] == a[2];
        assert (a + b)[3..] == a[3..] + b;
      }
    } else {
      assert a + b == b;
    }
  }

  lemma {:induction false} TriplesEncoded(bs: seq<nat>)
    requires AllBytes(bs)
    ensures PercentEncoded(Triples(bs))
  {
    if |bs| > 0 {
      TriplesEncoded(bs[1..]);
      assert Triples(bs)[3..] == Triples(bs[1..]);
    }
  }

  /** The two hexadecimal digits of a code between 16 and 255. */
  lemma TwoHexDigits(n: nat)
    requires 16 <= n < 256
    ensures |Hex(n)| == 2
  {
    HexLength(n, 2);
  }

  lemma EncodedCharEncoded(c: char)
    ensures PercentEncoded(EncodedChar(c))
  {
    if IsReplaced(c) {
      TwoHexDigits(c as int);
      var t := EncodedChar(c);
      assert t[3..] == [];
    } else if !IsComponentUnescaped(c) {
      TriplesEncoded(Utf8(c));
    }
  }

  /** Nothing but unreserved characters and `%`-hex triples leave encodeURL;
      in particular none of ! ' ( ) * remains. */
  lemma {:induction false} EncodeURLIsPercentEncoded(s: string)
    ensures PercentEncoded(EncodeURL(s))
    ensures forall i :: 0 <= i < |EncodeURL(s)| ==> !IsReplaced(EncodeURL(s)[i])
  {
    EncodeURLChars(s);
    EncodedCharsEncoded(s);
    PercentEncodedNoReplaced(EncodeURL(s));
  }

  lemma {:induction false} EncodedCharsEncoded(s: string)
    ensures PercentEncoded(EncodedChars(s))
  {
    if |s| > 0 {
      EncodedCharsEncoded(s[1..]);
      EncodedCharEncoded(s[0]);
      PercentEncodedAppend(EncodedChar(s[0]), EncodedChars(s[1..]));
    }
  }

  /** A percent-encoded string holds none of the replaced characters. */
  lemma {:induction false} PercentEncodedNoReplaced(t: string)
    requires PercentEncoded(t)
    ensures forall i :: 0 <= i < |t| ==> !IsReplaced(t[i]) && t[i] != '&'
  {
    if |t| > 0 {
      if IsUnreserved(t[0]) && PercentEncoded(t[1..]) {
        PercentEncodedNoReplaced(t[1..]);
        assert forall i :: 1 <= i < |t| ==> t[i] == t[1..][i - 1];
      } else {
        PercentEncodedNoReplaced(t[3..]);
        assert forall i :: 3 <= i < |t| ==> t[i] == t[3..][i - 3];
      }
    }
  }

  /** The bytes a percent-encoded string stands for: a triple for its byte,
      an ASCII character for its code; None for anything else. */
  function PercentBytes(t: string): (r: Option<seq<nat>>)
  {
    if |t| == 0 then Some([])
    else if t[0] == '%' then
      if |t| >= 3 && IsHexDigit(t[1]) && IsHexDigit(t[2]) then
        match PercentBytes(t[3..])
        case None => None
        case Some(rest) => Some([HexDigitValue(t[1]) * 16 + HexDigitValue(t[2])] + rest)
      else None
    else if t[0] as int < 128 then
      match PercentBytes(t[1..])
      case None => None
      case Some(rest) => Some([t[0] as int] + rest)
    else None
  }

  /** The first unit of a percent-encoded string: a `%`-hex triple or one
      ASCII character. */
  predicate HeadValid(t: string) {
    |t| > 0 && if t[0] == '%' then |t| >= 3 && IsHexDigit(t[1]) && IsHexDigit(t[2]) else t[0] as int < 128
  }

  function HeadLength(t: string): nat
    requires HeadValid(t)
  {
    if t[0] == '%' then 3 else 1
  }

  function HeadByte(t: string): nat
    requires HeadValid(t)
  {
    if t[0] == '%' then HexDigitValue(t[1]) * 16 + HexDigitValue(t[2]) else t[0] as int
  }

  lemma PercentBytesUnfold(t: string)
    requires |t| > 0
    ensures PercentBytes(t).Some? <==> HeadValid(t) && PercentBytes(t[HeadLength(t)..]).Some?
    ensures PercentBytes(t).Some? ==> PercentBytes(t).value == [HeadByte(t)] + PercentBytes(t[HeadLength(t)..]).value
  {
  }

  lemma ConsAssociates(x: nat, ra: seq<nat>, rb: seq<nat>)
    ensures [x] + (ra + rb) == ([x] + ra) + rb
  {
  }

  lemma {:induction false} PercentBytesAppend(a: string, b: string)
    requires PercentBytes(a).Some? && PercentBytes(b).Some?
    ensures PercentBytes(a + b) == Some(PercentBytes(a).value + PercentBytes(b).value)
  {
    if |a| > 0 {
      PercentBytesUnfold(a);
      var k := HeadLength(a);
      assert (a + b)[0] == a[0] && (a + b)[1..] == a[1..] + b;
      if a[0] == '%' {
        assert (a + b)[1] == a[1] && (a + b)[2] == a[2];
      }
      assert HeadValid(a + b) && HeadLength(a + b) == k && HeadByte(a + b) == HeadByte(a);
      assert (a + b)[k..] == a[k..] + b;
      PercentBytesAppend(a[k..], b);
      PercentBytesUnfold(a + b);
      var x, ra, rb := HeadByte(a), PercentBytes(a[k..]).value, PercentBytes(b).value;
      assert PercentBytes(a + b) == Some([x] + (ra + rb));
      assert PercentBytes(a).value == [x] + ra;
      ConsAssociates(x, ra, rb);
    } else {
      assert a + b == b && PercentBytes(a).value == [];
      assert [] + PercentBytes(b).value == PercentBytes(b).value;
    }
  }

  lemma {:induction false} TriplesBytes(bs: seq<nat>)
    requires AllBytes(bs)
    ensures PercentBytes(Triples(bs)) == Some(bs)
  {
    if |bs| > 0 {
      TriplesBytes(bs[1..]);
      var t := Triples(bs);
      assert t[3..] == Triples(bs[1..]);
      assert bs == [bs[0]] + bs[1..];
    }
  }

  /** "%" and the two hexadecimal digits of one of ! ' ( ) * decode to its code. */
  lemma ReplacedBytes(c: char)
    requires IsReplaced(c)
    ensures PercentBytes("%" + Hex(c as int)) == Some([c as int])
  {
    var n := c as int;
    TwoHexDigits(n);
    HexRoundTrip(n);
    var h := Hex(n);
    assert HexValue(h[..1]) == HexDigitValue(h[0]) by {
      assert h[..1][..0] == [];
    }
    assert h[..|h| - 1] == h[..1];
    assert HexValue(h) == HexDigitValue(h[0]) * 16 + HexDigitValue(h[1]);
    var t := "%" + h;
    assert t[1] == h[0] && t[2] == h[1] && t[3..] == [];
    assert IsHexDigit(t[1]) && IsHexDigit(t[2]);
    assert PercentBytes(t[3..]) == Some([]);
    assert PercentBytes(t) == Some([n] + []);
    assert [n] + [] == [n];
  }

  lemma EncodedCharBytes(c: char)
    ensures PercentBytes(EncodedChar(c)) == Some(Utf8(c))
  {
    if IsReplaced(c) {
      ReplacedBytes(c);
    } else if IsComponentUnescaped(c) {
      assert c as int < 128 && c != '%';
      assert EncodedChar(c) == [c] && [c][1..] == [];
      var t := [c];
      assert PercentBytes(t[1..]) == Some([]);
      assert [c as int] + [] == [c as int];
    } else {
      TriplesBytes(Utf8(c));
    }
  }

  lemma {:induction false} EncodedCharsBytes(s: string)
    ensures PercentBytes(EncodedChars(s)) == Some(Utf8String(s))
  {
    if |s| > 0 {
      EncodedCharsBytes(s[1..]);
      EncodedCharBytes(s[0]);
      PercentBytesAppend(EncodedChar(s[0]), EncodedChars(s[1..]));
    }
  }

  /** Percent-decoding what encodeURL produced gives back the UTF-8 bytes of
      the URL. */
  lemma EncodeURLRoundTrip(url: string)
    ensures PercentBytes(EncodeURL(url)) == Some(Utf8String(url))
  {
    EncodeURLChars(url);
    EncodedCharsBytes(url);
  }

  // ----- the redirect -----

  /** The address of the confirmation page onBeforeRequest redirects to. */
  function RedirectUrl(extURL: string, url: string, group: string, tabId: int): string {
    extURL + "?url=" + EncodeURL(url) + "&groupId=" + group + "&tabId=" + Decimal(tabId)
  }

  /** The text from position `from` up to the next `&` or the end. */
  function UpToAmpersand(s: string, from: nat): (r: string)
    requires from <= |s|
    decreases |s| - from
  {
    if from == |s| || s[from] == '&' then [] else [s[from]] + UpToAmpersand(s, from + 1)
  }

  lemma {:induction false} UpToAmpersandPrefix(s: string, from: nat, p: string, rest: string)
    requires from <= |s| && s[from..] == p + rest
    requires forall i :: 0 <= i < |p| ==> p[i] != '&'
    requires |rest| > 0 && rest[0] == '&'
    ensures UpToAmpersand(s, from) == p
    decreases |s| - from
  {
    if |p| > 0 {
      assert s[from] == p[0];
      assert s[from + 1..] == p[1..] + rest;
      UpToAmpersandPrefix(s, from + 1, p[1..], rest);
    } else {
      assert s[from] == rest[0];
    }
  }

  /** The `url` parameter of the confirmation page reads back as the
      requested URL: it runs up to the first `&` and decodes to the URL's
      bytes. */
  lemma RedirectUrlParameter(extURL: string, url: string, group: string, tabId: int)
    ensures var r := RedirectUrl(extURL, url, group, tabId);
      |extURL| + 5 <= |r| && PercentBytes(UpToAmpersand(r, |extURL| + 5)) == Some(Utf8String(url))
  {
    var r := RedirectUrl(extURL, url, group, tabId);
    var e := EncodeURL(url);
    var rest := "&groupId=" + group + "&tabId=" + Decimal(tabId);
    RedirectUrlSplit(extURL, url, group, tabId);
    EncodeURLIsPercentEncoded(url);
    PercentEncodedNoReplaced(e);
    UpToAmpersandPrefix(r, |extURL| + 5, e, rest);
    EncodeURLRoundTrip(url);
  }

  lemma RedirectUrlSplit(extURL: string, url: string, group: string, tabId: int)
    ensures var r := RedirectUrl(extURL, url, group, tabId);
      |extURL| + 5 <= |r| && r[|extURL| + 5..] == EncodeURL(url) + ("&groupId=" + group + "&tabId=" + Decimal(tabId))
  {
    var r := RedirectUrl(extURL, url, group, tabId);
    var head := extURL + "?url=";
    var tail := EncodeURL(url) + ("&groupId=" + group + "&tabId=" + Decimal(tabId));
    assert r == head + tail;
    assert |head| == |extURL| + 5;
  }

  /** The request details onBeforeRequest uses; `hostname` is what
      `new URL(url).hostname` yields. */
  datatype Request = Request(frameId: int, tabId: int, url: string, hostname: string)

  /** A session value is truthy when present and not empty. */
  predicate Truthy(v: Option<string>) {
    v.Some? && v.value != ""
  }

  // ----- messages and effects -----

  /** The runtime messages the background script handles; `redirectHost` is
      the host name of `redirectUrl`, and `groupId` is None when the message
      has no such property. */
  datatype Message =
    | NeverAsk(hostname: string, neverAsk: bool)
    | RedirectTab(tabId: int, redirectUrl: string, redirectHost: string, originalUrl: string,
                  exempt: bool, groupId: Option<string>)
    | OtherMessage

  /** The browser calls of the background script. */
  datatype Effect =
    | Store(edit: StorageEdit)
    | SetTabGroup(tabId: int, groupId: string)
    | UpdateTab(tabId: int, url: string)
    | DeleteHistory(url: string)
    | PostMoveTabGroup(tabId: int, groupId: string)

  /** toggleNeverAsk: a domain without an assignment is left alone; otherwise
      its record is stored again with the flag set to `value`. */
  function ToggleNeverAsk(storage: map<string, PageSetting>, hostname: string, value: bool): (e: seq<StorageEdit>)
    ensures PageKey(hostname) !in storage ==> e == []
    ensures var after := Apply(storage, e);
      && after.Keys == storage.Keys
      && (forall k :: k in storage && k != PageKey(hostname) ==> after[k] == storage[k])
      && (PageKey(hostname) in storage ==>
            after[PageKey(hostname)].group == storage[PageKey(hostname)].group
            && after[PageKey(hostname)].neverAsk == value)
  {
    var key := PageKey(hostname);
    if key !in storage then []
    else
      var e := [StorageSet(key, storage[key].(neverAsk := value))];
      assert Apply(storage, e) == Apply(storage[key := storage[key].(neverAsk := value)], []);
      e
  }

  /** redirectTab: the tab loads the URL in place of the current entry, and
      once that is done the original URL leaves the history. The deletion
      runs in the update's callback, so it comes after whatever the caller
      does synchronously once redirectTab has returned. */
  function RedirectEffects(tabId: int, redirectUrl: string, originalUrl: string): (e: seq<Effect>)
    ensures |e| == 2 && e[0] == UpdateTab(tabId, redirectUrl) && e[1] == DeleteHistory(originalUrl)
  {
    [UpdateTab(tabId, redirectUrl), DeleteHistory(originalUrl)]
  }

  function Stores(edits: seq<StorageEdit>): (e: seq<Effect>)
    ensures |e| == |edits| && forall k :: 0 <= k < |edits| ==> e[k] == Store(edits[k])
  {
    if |edits| == 0 then [] else [Store(edits[0])] + Stores(edits[1..])
  }

  /** The module state of the background script. `_exemptTabs` is a Map
      whose entries are only queried (`has`) and deleted, while exemptions are
      written and read as object properties with `[]`: the two are kept
      apart. `portConnected` is whether `_port` was set. */
  class Background {
    var mapEntries: map<int, set<string>>
    var exemptProps: map<int, set<string>>
    var portConnected: bool

    constructor()
      ensures mapEntries == map[] && exemptProps == map[] && !portConnected
    {
      mapEntries := map[];
      exemptProps := map[];
      portConnected := false;
    }

    /** Nothing ever adds an entry to the Map itself. */
    ghost predicate Valid()
      reads this`mapEntries
    {
      mapEntries == map[]
    }

    /** isExempt. */
    predicate IsExempt(tabId: int, hostname: string)
      reads this`exemptProps
    {
      tabId in exemptProps && hostname in exemptProps[tabId]
    }

    /** exemptTab: since the Map never has the tab, the property is always
        replaced by a set of just this domain, and the domains exempted
        before for the tab are forgotten. Were the Map to have the tab
        without the property, adding to it would throw. */
    method ExemptTab(tabId: int, hostname: string) returns (thrown: bool)
      modifies this`exemptProps
      ensures !thrown ==> IsExempt(tabId, hostname)
      ensures thrown <==> old(tabId in mapEntries && tabId !in exemptProps)
      ensures forall t :: t != tabId ==>
        && (t in exemptProps <==> t in old(exemptProps))
        && (t in exemptProps ==> exemptProps[t] == old(exemptProps[t]))
      ensures Valid() ==> forall d :: IsExempt(tabId, d) <==> d == hostname
    {
      thrown := false;
      if tabId !in mapEntries {
        exemptProps := exemptProps[tabId := {hostname}];
      } else if tabId in exemptProps {
        exemptProps := exemptProps[tabId := exemptProps[tabId] + {hostname}];
      } else {
        thrown := true;
      }
    }

    /** onPortMessage: "invalidateExempt" deletes the tab from the Map, which
        never held it, so every exemption stays. */
    method OnPortMessage(invalidate: bool, tabId: int)
      modifies this`mapEntries
      ensures mapEntries == if invalidate then old(mapEntries) - {tabId} else old(mapEntries)
      ensures old(Valid()) ==> Valid()
    {
      if invalidate {
        mapEntries := mapEntries - {tabId};
      }
    }

    /** portConnected. */
    method PortConnected()
      modifies this`portConnected
      ensures portConnected
    {
      portConnected := true;
    }

    /** The decision of onBeforeRequest, given the tab's stored assignment
        and its "group-id" session value: None for `{}`, or the address of
        the confirmation page. Only a top-level request of a real tab that
        is not exempt for the domain, whose domain has an assignment without
        "never ask", from a tab with a group other than the assigned one, is
        redirected. */
    function OnBeforeRequest(req: Request, storage: map<string, PageSetting>, groupValue: Option<string>,
                             extURL: string): (r: Option<string>)
      reads this`exemptProps
      ensures req.frameId != 0 || req.tabId == -1 ==> r.None?
      ensures r.Some? <==>
        && req.frameId == 0 && req.tabId != -1
        && !IsExempt(req.tabId, req.hostname)
        && PageKey(req.hostname) in storage && !storage[PageKey(req.hostname)].neverAsk
        && Truthy(groupValue) && groupValue.value != storage[PageKey(req.hostname)].group
      ensures r.Some? ==> r == Some(RedirectUrl(extURL, req.url, storage[PageKey(req.hostname)].group, req.tabId))
    {
      var key := PageKey(req.hostname);
      if req.frameId != 0 || req.tabId == -1 then None
      else if IsExempt(req.tabId, req.hostname) then None
      else if key !in storage then None
      else if storage[key].neverAsk then None
      else if !Truthy(groupValue) then None
      else if groupValue.value != storage[key].group then
        Some(RedirectUrl(extURL, req.url, storage[key].group, req.tabId))
      else None
    }

    /** moveTabToGroup: the session value, the tab update, and a message to
        the sidebar; without a connected port the message throws. The
        history deletion waits for the update's callback, so it comes last,
        and it still comes when the message threw. */
    method MoveTabToGroup(tabId: int, redirectUrl: string, originalUrl: string, groupId: string)
        returns (effects: seq<Effect>, thrown: bool)
      ensures thrown <==> !portConnected
      ensures effects == [SetTabGroup(tabId, groupId), UpdateTab(tabId, redirectUrl)]
        + (if portConnected then [PostMoveTabGroup(tabId, groupId)] else [])
        + [DeleteHistory(originalUrl)]
    {
      var redirect := RedirectEffects(tabId, redirectUrl, originalUrl);
      effects := [SetTabGroup(tabId, groupId), redirect[0]];
      thrown := !portConnected;
      if portConnected {
        effects := effects + [PostMoveTabGroup(tabId, groupId)];
      }
      effects := effects + [redirect[1]];
    }

    /** onMessage: "neverAsk" toggles the flag of the domain's assignment;
        "redirectTab" first exempts the redirect's domain when asked to,
        then moves the tab to the group when the message names one, and
        otherwise only redirects. */
    method OnMessage(msg: Message, storage: map<string, PageSetting>) returns (effects: seq<Effect>, thrown: bool)
      modifies this`exemptProps
      ensures !msg.RedirectTab? || !msg.exempt ==> exemptProps == old(exemptProps)
      ensures msg.NeverAsk? ==> !thrown && effects == Stores(ToggleNeverAsk(storage, msg.hostname, msg.neverAsk))
      ensures msg.OtherMessage? ==> !thrown && effects == []
      ensures msg.RedirectTab? && msg.exempt && old(Valid()) ==>
        forall d :: IsExempt(msg.tabId, d) <==> d == msg.redirectHost
      ensures msg.RedirectTab? ==> forall t :: t != msg.tabId ==>
        && (t in exemptProps <==> t in old(exemptProps))
        && (t in exemptProps ==> exemptProps[t] == old(exemptProps[t]))
      ensures msg.RedirectTab? && msg.groupId.None? && old(Valid()) ==>
        !thrown && effects == RedirectEffects(msg.tabId, msg.redirectUrl, msg.originalUrl)
      ensures msg.RedirectTab? && msg.groupId.Some? && old(Valid()) ==>
        && (thrown <==> !portConnected)
        && effects == [SetTabGroup(msg.tabId, msg.groupId.value), UpdateTab(msg.tabId, msg.redirectUrl)]
             + (if portConnected then [PostMoveTabGroup(msg.tabId, msg.groupId.value)] else [])
             + [DeleteHistory(msg.originalUrl)]
    {
      effects, thrown := [], false;
      match msg
      case NeverAsk(hostname, value) =>
        effects := Stores(ToggleNeverAsk(storage, hostname, value));
      case RedirectTab(tabId, redirectUrl, redirectHost, originalUrl, exempt, groupId) =>
        if exempt {
          thrown := ExemptTab(tabId, redirectHost);
          if thrown {
            return;
          }
        }
        if groupId.Some? {
          effects, thrown := MoveTabToGroup(tabId, redirectUrl, originalUrl, groupId.value);
        } else {
          effects := RedirectEffects(tabId, redirectUrl, originalUrl);
        }
      case OtherMessage =>
    }
  }
}
