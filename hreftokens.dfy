/**
 * Href compression shared by SharpSMS.Wbxml.ServiceIndication and ServiceLoading: an
 * attribute-start token standing for a known URL prefix, and an attribute-value token
 * standing for a known domain ending, with the rest of the URL as inline strings.
 * Both documents keep their tables in `Dictionary` objects filled once and searched with
 * `foreach ... break`; the tables here are sequences in insertion order, the order in
 * which those loops visit them.
 */
module HrefTokens {
  import opened Wrappers
  import opened Arith
  import opened Text
  import opened WbxmlDocument

  /** A token table: strings and their tokens, in the order they were added. */
  type Table = seq<(string, byte)>

  /** The attribute-value tokens for domain endings, the same in both documents. */
  const DomainTokens: Table := [(".com/", 0x85), (".edu/", 0x86), (".net/", 0x87), (".org/", 0x88)]

  /** No two entries share a token. */
  predicate DistinctTokens(t: Table)
  {
    forall i, j :: 0 <= i < j < |t| ==> t[i].1 != t[j].1
  }

  /** A prefix table the href form can be read back with: distinct tokens, none of them the
      generic href token, and no entry empty. */
  predicate Decodable(starts: Table, generic: byte)
  {
    DistinctTokens(starts) &&
    (forall i :: 0 <= i < |starts| ==> starts[i].1 != generic && starts[i].0 != [])
  }

  /** The domain endings can be told apart by their tokens. */
  lemma DomainTokensDistinct()
    ensures DistinctTokens(DomainTokens)
  {
  }

  // ---------------------------------------------------------------------
  // The two table searches

  /** The index of the first prefix in the table that the href starts with. */
  function FirstPrefix(href: string, starts: Table): (r: Option<nat>)
    ensures r.Some? ==> r.value < |starts| && StartsWith(href, starts[r.value].0)
    ensures r.Some? ==> forall j :: 0 <= j < r.value ==> !StartsWith(href, starts[j].0)
    ensures r.None? ==> forall j :: 0 <= j < |starts| ==> !StartsWith(href, starts[j].0)
  {
    if starts == [] then None
    else if StartsWith(href, starts[0].0) then Some(0)
    else match FirstPrefix(href, starts[1..])
      case None => None
      case Some(i) => Some(i + 1)
  }

  /** The href token and the number of characters it stands for: the first matching prefix,
      or the generic token and nothing. */
  function HrefStart(href: string, starts: Table, generic: byte): (r: (byte, nat))
    ensures r.1 <= |href|
  {
    match FirstPrefix(href, starts)
      case None => (generic, 0)
      case Some(i) => (starts[i].1, |starts[i].0|)
  }

  /** The first loop of `GetWBXMLBytes`: prefixes are tried in table order and the first one
      the href starts with gives the token and the position after it. */
  method FindHrefStart(href: string, starts: Table, generic: byte) returns (hrefTagToken: byte, pos: nat)
    ensures (hrefTagToken, pos) == HrefStart(href, starts, generic)
  {
    pos := 0;
    hrefTagToken := generic;
    var k := 0;
    while k < |starts|
      invariant 0 <= k <= |starts|
      invariant forall j :: 0 <= j < k ==> !StartsWith(href, starts[j].0)
      invariant hrefTagToken == generic && pos == 0
    {
      if StartsWith(href, starts[k].0) {
        hrefTagToken := starts[k].1;
        pos := |starts[k].0|;
        break;
      }
      k := k + 1;
    }
    if k < |starts| {
      FirstPrefixAt(href, starts, k);
    } else {
      FirstPrefixNone(href, starts);
    }
  }

  /** The first prefix is the one at k when none before k matches and k does. */
  lemma FirstPrefixAt(href: string, starts: Table, k: nat)
    requires k < |starts| && StartsWith(href, starts[k].0)
    requires forall j :: 0 <= j < k ==> !StartsWith(href, starts[j].0)
    ensures FirstPrefix(href, starts) == Some(k)
  {
  }

  lemma FirstPrefixNone(href: string, starts: Table)
    requires forall j :: 0 <= j < |starts| ==> !StartsWith(href, starts[j].0)
    ensures FirstPrefix(href, starts) == None
  {
  }

  /** The first domain ending, in table order, that occurs anywhere in the href: its index in
      the table and the position of its first occurrence. An ending earlier in the href but
      later in the table loses. */
  function FirstDomain(href: string, domains: Table): (r: Option<(nat, nat)>)
    ensures r.Some? ==> r.value.0 < |domains| && IndexOf(href, domains[r.value.0].0) == Some(r.value.1)
    ensures r.Some? ==> forall j :: 0 <= j < r.value.0 ==> IndexOf(href, domains[j].0).None?
    ensures r.None? ==> forall j :: 0 <= j < |domains| ==> IndexOf(href, domains[j].0).None?
  {
    if domains == [] then None
    else match IndexOf(href, domains[0].0)
      case Some(d) => Some((0, d))
      case None =>
        match FirstDomain(href, domains[1..])
          case None => None
          case Some((i, d)) => Some((i + 1, d))
  }

  /** The second loop of `GetWBXMLBytes`: each domain ending is searched for in turn, and the
      search stops at the first one found. `domainPos` is -1 when none occurs; `index` is where
      the loop stopped, whose token the writer then looks up. */
  method FindDomain(href: string, domains: Table) returns (domainPos: int, index: nat)
    ensures domainPos >= -1
    ensures FirstDomain(href, domains) == if domainPos >= 0 then Some((index, domainPos as nat)) else None
  {
    domainPos := -1;
    index := 0;
    while index < |domains|
      invariant 0 <= index <= |domains|
      invariant forall j :: 0 <= j < index ==> IndexOf(href, domains[j].0).None?
      invariant domainPos == -1
    {
      var found := IndexOf(href, domains[index].0);
      domainPos := if found.Some? then found.value else -1;
      if domainPos >= 0 {
        break;
      }
      index := index + 1;
    }
    if domainPos >= 0 {
      FirstDomainAt(href, domains, index);
    } else {
      FirstDomainNone(href, domains);
    }
  }

  lemma FirstDomainAt(href: string, domains: Table, k: nat)
    requires k < |domains| && IndexOf(href, domains[k].0).Some?
    requires forall j :: 0 <= j < k ==> IndexOf(href, domains[j].0).None?
    ensures FirstDomain(href, domains) == Some((k, IndexOf(href, domains[k].0).value))
  {
  }

  lemma FirstDomainNone(href: string, domains: Table)
    requires forall j :: 0 <= j < |domains| ==> IndexOf(href, domains[j].0).None?
    ensures FirstDomain(href, domains) == None
  {
  }

  // ---------------------------------------------------------------------
  // The href attribute

  /** A domain match that lies inside the href. */
  predicate InHref(href: string, m: Option<(nat, nat)>, domains: Table)
  {
    m.Some? ==> m.value.0 < |domains| && m.value.1 + |domains[m.value.0].0| <= |href|
  }

  /** The written href: the start token and the inline string after the prefix or, when a
      domain ending occurs, the start token, the inline string up to the ending, the ending's
      token and the inline string after it. `Substring(pos, domainPos - pos)` throws when the
      ending starts inside the stripped prefix, as in "https://www.com/". */
  function HrefBytes(href: string, starts: Table, generic: byte): (r: Result<seq<byte>>)
  {
    HrefForm(href, HrefStart(href, starts, generic), FirstDomain(href, DomainTokens), DomainTokens)
  }

  /** The href written from the outcome of the two searches. */
  function HrefForm(href: string, start: (byte, nat), m: Option<(nat, nat)>, domains: Table): (r: Result<seq<byte>>)
    requires start.1 <= |href| && InHref(href, m, domains)
  {
    var token, pos := start.0, start.1;
    match m
      case None => Ok([token] + InlineString(href[pos..]))
      case Some((i, d)) =>
        if d < pos then Err(SubstringOutOfRange)
        else
          var domain, domainToken := domains[i].0, domains[i].1;
          Ok([token] + InlineString(href[pos..d]) + [domainToken] + InlineString(href[d + |domain|..]))
  }

  /** The href part of `GetWBXMLBytes`: the two searches, then the pieces. */
  method WriteHref(stream: seq<byte>, href: string, starts: Table, generic: byte) returns (r: Result<seq<byte>>)
    ensures r == Appended(stream, HrefBytes(href, starts, generic))
  {
    var hrefTagToken, pos := FindHrefStart(href, starts, generic);
    var domainPos, index := FindDomain(href, DomainTokens);
    r := WriteHrefPieces(stream, href, hrefTagToken, pos, domainPos, index, DomainTokens);
  }

  /** The writes after the searches: `Substring(pos, domainPos - pos)` fails before anything
      is written when the ending lies inside the prefix. */
  method WriteHrefPieces(stream: seq<byte>, href: string, hrefTagToken: byte, pos: nat, domainPos: int, index: nat, domains: Table)
    returns (r: Result<seq<byte>>)
    requires pos <= |href| && domainPos >= -1
    requires InHref(href, if domainPos >= 0 then Some((index, domainPos as nat)) else None, domains)
    ensures r == Appended(stream, HrefForm(href, (hrefTagToken, pos), if domainPos >= 0 then Some((index, domainPos as nat)) else None, domains))
  {
    if domainPos >= 0 {
      if domainPos < pos {
        return Err(SubstringOutOfRange);
      }
      var domain, domainToken := domains[index].0, domains[index].1;
      var out := stream + [hrefTagToken];
      out := WriteInlineString(out, href[pos..domainPos]);
      out := out + [domainToken];
      out := WriteInlineString(out, href[domainPos + |domain|..]);
      ghost var a, b, c, d := [hrefTagToken], InlineString(href[pos..domainPos]), [domainToken], InlineString(href[domainPos + |domain|..]);
      AppendAssoc(stream, a, b);
      AppendAssoc(stream, a + b, c);
      AppendAssoc(stream, a + b + c, d);
      r := Ok(out);
    } else {
      var out := stream + [hrefTagToken];
      out := WriteInlineString(out, href[pos..]);
      AppendAssoc(stream, [hrefTagToken], InlineString(href[pos..]));
      r := Ok(out);
    }
  }

  // ---------------------------------------------------------------------
  // Properties of the href form

  /** The href form fails exactly when the domain ending found starts before the end of the
      prefix, and then with the `Substring` error. */
  lemma HrefFails(href: string, starts: Table, generic: byte)
    ensures var m := FirstDomain(href, DomainTokens);
            HrefBytes(href, starts, generic).Err? <==> m.Some? && m.value.1 < HrefStart(href, starts, generic).1
    ensures HrefBytes(href, starts, generic).Err? ==> HrefBytes(href, starts, generic).error == SubstringOutOfRange
  {
  }

  /** The text a start token stands for: the matched prefix, or nothing. */
  function PrefixText(href: string, starts: Table): (p: string)
  {
    match FirstPrefix(href, starts)
      case None => []
      case Some(i) => starts[i].0
  }

  /** The pieces reassemble the href: the prefix and the text after it, and, when a domain
      ending is tokenised, the text before it, the ending and the text after it. */
  lemma HrefReassembles(href: string, starts: Table, generic: byte)
    ensures var pos := HrefStart(href, starts, generic).1;
            PrefixText(href, starts) + href[pos..] == href
    ensures var pos := HrefStart(href, starts, generic).1;
            var m := FirstDomain(href, DomainTokens);
            m.Some? && pos <= m.value.1 ==>
              var domain, d := DomainTokens[m.value.0].0, m.value.1;
              href[pos..] == href[pos..d] + domain + href[d + |domain|..]
  {
    PrefixReassembles(href, starts, generic);
    var pos := HrefStart(href, starts, generic).1;
    var m := FirstDomain(href, DomainTokens);
    if m.Some? && pos <= m.value.1 {
      var domain, d := DomainTokens[m.value.0].0, m.value.1;
      assert href[d..d + |domain|] == domain;
      SplitAround(href, pos, d, domain);
    }
  }

  lemma PrefixReassembles(href: string, starts: Table, generic: byte)
    ensures PrefixText(href, starts) + href[HrefStart(href, starts, generic).1..] == href
  {
    var pos := HrefStart(href, starts, generic).1;
    assert PrefixText(href, starts) == href[..pos];
    assert href == href[..pos] + href[pos..];
  }

  /** A string cut around an occurrence of `mid` that starts at d. */
  lemma SplitAround(s: string, pos: nat, d: nat, mid: string)
    requires pos <= d && d + |mid| <= |s| && s[d..d + |mid|] == mid
    ensures s[pos..] == s[pos..d] + mid + s[d + |mid|..]
  {
    assert s[pos..] == s[pos..d] + s[d..d + |mid|] + s[d + |mid|..];
  }

  /** The text of the first entry with the given token. */
  function TokenText(t: Table, token: byte): (r: Option<string>)
    ensures r.Some? ==> exists i :: 0 <= i < |t| && t[i] == (r.value, token)
  {
    if t == [] then None
    else if t[0].1 == token then Some(t[0].0)
    else
      var r := TokenText(t[1..], token);
      assert r.Some? ==> exists i :: 0 <= i < |t[1..]| && t[1..][i] == (r.value, token);
      r
  }

  /** With distinct tokens an entry's token leads back to its text. */
  lemma {:induction false} TokenTextAt(t: Table, i: nat)
    requires DistinctTokens(t) && i < |t|
    ensures TokenText(t, t[i].1) == Some(t[i].0)
  {
    if i > 0 {
      assert DistinctTokens(t[1..]) by {
        forall a, b | 0 <= a < b < |t[1..]| ensures t[1..][a].1 != t[1..][b].1 {
          assert t[1..][a] == t[a + 1] && t[1..][b] == t[b + 1];
        }
      }
      assert t[0].1 != t[i].1;
      TokenTextAt(t[1..], i - 1);
    }
  }

  /** Reads an href form back into the UTF-8 octets of the href: the start token's text, the
      inline string and, when a domain token follows, its text and the second inline string. */
  function ExpandHref(bytes: seq<byte>, starts: Table, generic: byte, domains: Table): Option<seq<byte>>
  {
    if bytes == [] then None
    else
      var prefix := if bytes[0] == generic then Some([]) else TokenText(starts, bytes[0]);
      var first := ParseInlineString(bytes[1..]);
      if prefix.None? || first.None? || 1 + first.value.1 > |bytes| then None
      else
        var p, head, k := prefix.value, first.value.0, first.value.1;
        if 1 + k == |bytes| then Some(Utf8(p) + head)
        else ExpandDomain(Utf8(p) + head, bytes[1 + k..], domains)
  }

  /** The rest of an href form after the first inline string: a domain token and the inline
      string that ends the form. */
  function ExpandDomain(front: seq<byte>, after: seq<byte>, domains: Table): Option<seq<byte>>
    requires after != []
  {
    var domain := TokenText(domains, after[0]);
    var second := ParseInlineString(after[1..]);
    if domain.Some? && second.Some? && second.value.1 == |after| - 1
    then Some(front + Utf8(domain.value) + second.value.0)
    else None
  }

  /** The start token leads back to the prefix it stands for. */
  lemma StartTokenText(href: string, starts: Table, generic: byte)
    requires Decodable(starts, generic)
    ensures var token := HrefStart(href, starts, generic).0;
            (if token == generic then Some([]) else TokenText(starts, token)) == Some(PrefixText(href, starts))
  {
    match FirstPrefix(href, starts)
      case None =>
      case Some(i) => TokenTextAt(starts, i);
  }

  /** Every href without NUL whose form can be written reads back from it, the prefix and the
      domain ending restored from their tokens. */
  lemma HrefRoundTrip(href: string, starts: Table, generic: byte)
    requires NoNul(href) && Decodable(starts, generic)
    ensures HrefBytes(href, starts, generic).Ok? ==>
            ExpandHref(HrefBytes(href, starts, generic).value, starts, generic, DomainTokens) == Some(Utf8(href))
  {
    DomainTokensDistinct();
    var token, pos := HrefStart(href, starts, generic).0, HrefStart(href, starts, generic).1;
    var m := FirstDomain(href, DomainTokens);
    PrefixReassembles(href, starts, generic);
    StartTokenText(href, starts, generic);
    if m.Some? {
      var domain, d := DomainTokens[m.value.0].0, m.value.1;
      assert href[d..d + |domain|] == domain;
    }
    HrefFormRoundTrip(href, token, pos, m, DomainTokens, PrefixText(href, starts), starts, generic);
  }

  /** The href form written from any prefix split and domain occurrence reads back. */
  lemma HrefFormRoundTrip(href: string, token: byte, pos: nat, m: Option<(nat, nat)>, domains: Table, p: string, starts: Table, generic: byte)
    requires NoNul(href) && pos <= |href| && InHref(href, m, domains) && p + href[pos..] == href
    requires DistinctTokens(domains)
    requires (if token == generic then Some([]) else TokenText(starts, token)) == Some(p)
    requires m.Some? ==> href[m.value.1..m.value.1 + |domains[m.value.0].0|] == domains[m.value.0].0
    ensures HrefForm(href, (token, pos), m, domains).Ok? ==>
            ExpandHref(HrefForm(href, (token, pos), m, domains).value, starts, generic, domains) == Some(Utf8(href))
  {
    if m.None? {
      PlainFormRoundTrip(href, token, pos, domains, p, starts, generic);
    } else if m.value.1 >= pos {
      HrefFormDomain(href, token, pos, m, domains);
      DomainFormRoundTrip(href, token, pos, m, domains, p, starts, generic);
    }
  }

  /** The round trip of a form with a domain token. */
  lemma DomainFormRoundTrip(href: string, token: byte, pos: nat, m: Option<(nat, nat)>, domains: Table, p: string, starts: Table, generic: byte)
    requires NoNul(href) && m.Some? && pos <= m.value.1 && InHref(href, m, domains) && p + href[pos..] == href
    requires DistinctTokens(domains)
    requires (if token == generic then Some([]) else TokenText(starts, token)) == Some(p)
    requires href[m.value.1..m.value.1 + |domains[m.value.0].0|] == domains[m.value.0].0
    ensures var i, d := m.value.0, m.value.1;
            ExpandHref([token] + InlineString(href[pos..d]) + [domains[i].1] + InlineString(href[d + |domains[i].0|..]),
                       starts, generic, domains) == Some(Utf8(href))
  {
    DomainSlices(href, pos, m.value.0, m.value.1, domains, p);
    PiecesRoundTrip(token, p, href[pos..m.value.1], domains[m.value.0].0, domains[m.value.0].1,
                    href[m.value.1 + |domains[m.value.0].0|..], href, starts, generic, domains);
  }

  /** The round trip of a form without a domain token. */
  lemma PlainFormRoundTrip(href: string, token: byte, pos: nat, domains: Table, p: string, starts: Table, generic: byte)
    requires NoNul(href) && pos <= |href| && p + href[pos..] == href
    requires (if token == generic then Some([]) else TokenText(starts, token)) == Some(p)
    ensures HrefForm(href, (token, pos), None, domains) == Ok([token] + InlineString(href[pos..]))
    ensures ExpandHref([token] + InlineString(href[pos..]), starts, generic, domains) == Some(Utf8(href))
  {
    NoNulSlice(href, pos, |href|);
    ExpandHrefOf([token] + InlineString(href[pos..]), token, href[pos..], [], starts, generic, domains, p);
    Utf8Append(p, href[pos..]);
  }

  /** The href form when the domain ending lies after the prefix. */
  lemma HrefFormDomain(href: string, token: byte, pos: nat, m: Option<(nat, nat)>, domains: Table)
    requires m.Some? && pos <= m.value.1 && InHref(href, m, domains)
    ensures var i, d := m.value.0, m.value.1;
            HrefForm(href, (token, pos), m, domains) ==
            Ok([token] + InlineString(href[pos..d]) + [domains[i].1] + InlineString(href[d + |domains[i].0|..]))
  {
  }

  /** The cut around a domain ending found after the prefix: NUL-free pieces that reassemble
      the href, and a token that leads back to the ending. */
  lemma DomainSlices(href: string, pos: nat, i: nat, d: nat, domains: Table, p: string)
    requires NoNul(href) && pos <= d && InHref(href, Some((i, d)), domains) && p + href[pos..] == href
    requires DistinctTokens(domains) && href[d..d + |domains[i].0|] == domains[i].0
    ensures var domain, h, t := domains[i].0, href[pos..d], href[d + |domains[i].0|..];
            NoNul(h) && NoNul(t) && TokenText(domains, domains[i].1) == Some(domain) &&
            href == p + (h + domain + t)
  {
    var domain := domains[i].0;
    NoNulSlice(href, pos, d);
    NoNulSlice(href, d + |domain|, |href|);
    TokenTextAt(domains, i);
    SplitAround(href, pos, d, domain);
  }

  /** The four pieces of a domain-tokenised href form read back as the href they cut. */
  lemma PiecesRoundTrip(token: byte, p: string, h: string, domain: string, dt: byte, t: string, href: string,
                        starts: Table, generic: byte, domains: Table)
    requires NoNul(h) && NoNul(t) && TokenText(domains, dt) == Some(domain)
    requires (if token == generic then Some([]) else TokenText(starts, token)) == Some(p)
    requires href == p + (h + domain + t)
    ensures ExpandHref([token] + InlineString(h) + [dt] + InlineString(t), starts, generic, domains) == Some(Utf8(href))
  {
    var rest := [dt] + InlineString(t);
    var bytes := [token] + InlineString(h) + [dt] + InlineString(t);
    var front := Utf8(p) + Utf8(h);
    assert ExpandHref(bytes, starts, generic, domains) == Some(front + Utf8(domain) + Utf8(t)) by {
      AppendAssoc([token] + InlineString(h), [dt], InlineString(t));
      ExpandHrefOf(bytes, token, h, rest, starts, generic, domains, p);
      ExpandDomainOf(front, dt, domain, t, domains);
    }
    Utf8OfPieces(p, h, domain, t, href);
  }

  /** An href form opens with its start token and the first inline string. */
  lemma ExpandHrefOf(bytes: seq<byte>, token: byte, h: string, rest: seq<byte>, starts: Table, generic: byte, domains: Table, p: string)
    requires bytes == [token] + InlineString(h) + rest && NoNul(h)
    requires (if token == generic then Some([]) else TokenText(starts, token)) == Some(p)
    ensures rest == [] ==> ExpandHref(bytes, starts, generic, domains) == Some(Utf8(p) + Utf8(h))
    ensures rest != [] ==> ExpandHref(bytes, starts, generic, domains) == ExpandDomain(Utf8(p) + Utf8(h), rest, domains)
  {
    InlineStringRoundTrip(h, rest);
    AppendAssoc([token], InlineString(h), rest);
    DropPrefix([token], InlineString(h) + rest);
    DropPrefix([token] + InlineString(h), rest);
  }

  /** A domain token and an inline string read back as the domain ending and the text. */
  lemma ExpandDomainOf(front: seq<byte>, dt: byte, domain: string, t: string, domains: Table)
    requires TokenText(domains, dt) == Some(domain) && NoNul(t)
    ensures ExpandDomain(front, [dt] + InlineString(t), domains) == Some(front + Utf8(domain) + Utf8(t))
  {
    InlineStringRoundTrip(t, []);
    assert ([dt] + InlineString(t))[1..] == InlineString(t) + [];
  }

  /** UTF-8 of a string cut into four pieces. */
  lemma Utf8OfPieces(p: string, h: string, domain: string, t: string, href: string)
    requires href == p + (h + domain + t)
    ensures Utf8(href) == Utf8(p) + Utf8(h) + Utf8(domain) + Utf8(t)
  {
    var tail := domain + t;
    var mid := h + tail;
    AppendAssoc(h, domain, t);
    assert href == p + mid;
    Utf8Append(domain, t);
    Utf8Append(h, tail);
    Utf8Append(p, mid);
    AppendAssoc4(Utf8(p), Utf8(h), Utf8(domain), Utf8(t));
  }
}
