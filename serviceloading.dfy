/**
 * SharpSMS.Wbxml.ServiceLoading: a Service Loading document (WAP-168) tokenised as WBXML.
 * The document is `<sl href=... [action]/>` with the href compressed by the prefix and domain
 * token tables of the SL code space.
 */
module ServiceLoading {
  import opened Wrappers
  import opened Arith
  import opened Text
  import opened WbxmlDocument
  import opened HrefTokens

  /** The MIME type the constructor gives the document. */
  const ContentType: string := "application/vnd.wap.slc"

  const DocumentDtd: byte := 0x06
  const TagSl: byte := 0x05
  const ExecuteLowToken: byte := 0x05
  const ExecuteHighToken: byte := 0x06
  const CacheToken: byte := 0x07
  const HrefToken: byte := 0x08

  /** The href prefixes in the order the constructor adds them. */
  const HrefStartTokens: Table :=
    [("https://www.", 0x0C), ("http://www.", 0x0A), ("https://", 0x0B), ("http://", 0x09)]

  /** The value of the SL `action` attribute; `NotSet` writes no attribute (SharpSMS/Wbxml/ServiceLoadingAction.cs). */
  datatype Action = NotSet | ExecuteLow | ExecuteHigh | Cache

  /** The properties `GetWBXMLBytes` reads; a null href is `None`. */
  datatype Loading = Loading(href: Option<string>, action: Action)

  // ---------------------------------------------------------------------
  // Constructors

  /** `ServiceLoading(href, action)`. */
  function NewLoading(href: Option<string>, action: Action): (sl: Loading)
    ensures sl.href == href && sl.action == action
  {
    Loading(href, action)
  }

  /** `ServiceLoading()`: a null href and no action. */
  function DefaultLoading(): (sl: Loading)
    ensures sl.href.None? && sl.action == NotSet
  {
    Loading(None, NotSet)
  }

  /** `ServiceLoading(href)`: no action. */
  function HrefLoading(href: Option<string>): (sl: Loading)
    ensures sl.href == href && sl.action == NotSet
  {
    NewLoading(href, NotSet)
  }

  // ---------------------------------------------------------------------
  // Action tokens

  /** `GetActionToken`: `Execute_high` and `Execute_low` have their own tokens, every other
      action falls to the default branch with `cache`. */
  function ActionToken(action: Action): (r: byte)
    ensures ExecuteLowToken <= r <= CacheToken
    ensures r == CacheToken <==> action == NotSet || action == Cache
  {
    match action
      case ExecuteHigh => ExecuteHighToken
      case ExecuteLow => ExecuteLowToken
      case _ => CacheToken
  }

  /** The action an attribute-start token stands for, if it is one of the three action tokens. */
  function TokenAction(token: byte): (r: Option<Action>)
    ensures r.Some? ==> r.value != NotSet
  {
    if token == ExecuteLowToken then Some(ExecuteLow)
    else if token == ExecuteHighToken then Some(ExecuteHigh)
    else if token == CacheToken then Some(Cache)
    else None
  }

  /** Every set action is read back from its token, and nothing else is an action token. */
  lemma ActionTokenRoundTrip(action: Action, token: byte)
    ensures action != NotSet ==> TokenAction(ActionToken(action)) == Some(action)
    ensures TokenAction(token).Some? <==> ExecuteLowToken <= token <= CacheToken
  {
  }

  // ---------------------------------------------------------------------
  // The document

  /** The WBXML prolog and the opening tag: version 1.2, the SL public identifier, UTF-8, an
      empty string table and `<sl>` with attributes and no content. */
  function Head(): (h: seq<byte>)
    ensures h == [0x02, 0x06, 0x6A, 0x00, 0x85]
  {
    [Version12, DocumentDtd, CharsetUtf8, Nul, SetTagTokenIndications(TagSl, true, false)]
  }

  /** The action attribute, present only when the action is set. */
  function ActionPart(action: Action): (r: seq<byte>)
    ensures |r| <= 1 && (r == [] <==> action == NotSet)
  {
    if action != NotSet then [ActionToken(action)] else []
  }

  /** `GetWBXMLBytes` as a value: a null href fails at `StartsWith` and a domain ending inside
      the prefix fails at `Substring`; otherwise the head, the href, the action and one END. */
  function WbxmlBytes(sl: Loading): (r: Result<seq<byte>>)
  {
    if sl.href.None? then Err(NullValue)
    else
      var href := HrefBytes(sl.href.value, HrefStartTokens, HrefToken);
      if href.Err? then Err(href.error)
      else Ok(Head() + href.value + ActionPart(sl.action) + [TagTokenEnd])
  }

  /** `GetWBXMLBytes`. */
  method GetWbxmlBytes(sl: Loading) returns (r: Result<seq<byte>>)
    ensures r == WbxmlBytes(sl)
  {
    if sl.href.None? {
      return Err(NullValue);
    }
    var stream := [Version12, DocumentDtd, CharsetUtf8, Nul];
    stream := stream + [SetTagTokenIndications(TagSl, true, false)];
    assert stream == Head();
    var written := WriteHref(stream, sl.href.value, HrefStartTokens, HrefToken);
    if written.Err? {
      return Err(written.error);
    }
    stream := written.value;
    if sl.action != NotSet {
      stream := stream + [ActionToken(sl.action)];
    }
    assert stream == written.value + ActionPart(sl.action);
    stream := stream + [TagTokenEnd];
    r := Ok(stream);
  }

  // ---------------------------------------------------------------------
  // Reading a document back

  /** Reads a written document back into the UTF-8 octets of its href and its action: the head,
      the href form, an optional action token and END. The last octet of an href form is the
      NUL of an inline string, so an action token before END cannot be confused with it. */
  function ParseLoading(bytes: seq<byte>): (r: Option<(seq<byte>, Action)>)
  {
    if |bytes| < 7 || bytes[..5] != Head() || bytes[|bytes| - 1] != TagTokenEnd then None
    else
      var action := TokenAction(bytes[|bytes| - 2]);
      var form := if action.Some? then bytes[5..|bytes| - 2] else bytes[5..|bytes| - 1];
      var href := ExpandHref(form, HrefStartTokens, HrefToken, DomainTokens);
      if href.None? then None
      else Some((href.value, if action.Some? then action.value else NotSet))
  }

  /** An href form ends with the NUL of its last inline string. */
  lemma HrefFormEnd(href: string)
    ensures var h := HrefBytes(href, HrefStartTokens, HrefToken);
            h.Ok? ==> |h.value| >= 3 && h.value[|h.value| - 1] == Nul
  {
  }

  /** The head, the action and END frame the href form, and the octet before END is the action
      token or the NUL that ends the form. */
  lemma Framed(h: seq<byte>, a: seq<byte>)
    requires |h| >= 3 && h[|h| - 1] == Nul && |a| <= 1
    ensures var r := Head() + h + a + [TagTokenEnd];
            |r| >= 7 && r[..5] == Head() && r[|r| - 1] == TagTokenEnd &&
            r[5..|r| - 1 - |a|] == h &&
            r[|r| - 2] == (if a == [] then Nul else a[0])
  {
    var r := Head() + h + a + [TagTokenEnd];
    assert r == Head() + (h + a + [TagTokenEnd]);
    assert r[5..|r| - 1 - |a|] == h;
  }

  /** A framed href form reads back to the href it stands for and the action. */
  lemma ParseFramed(h: seq<byte>, action: Action, href: seq<byte>)
    requires |h| >= 3 && h[|h| - 1] == Nul
    requires ExpandHref(h, HrefStartTokens, HrefToken, DomainTokens) == Some(href)
    ensures ParseLoading(Head() + h + ActionPart(action) + [TagTokenEnd]) == Some((href, action))
  {
    var r := Head() + h + ActionPart(action) + [TagTokenEnd];
    var token := TokenAction(r[|r| - 2]);
    assert |r| >= 7 && r[..5] == Head() && r[|r| - 1] == TagTokenEnd &&
           token == (if action == NotSet then None else Some(action)) &&
           (if token.Some? then r[5..|r| - 2] else r[5..|r| - 1]) == h by {
      Framed(h, ActionPart(action));
      ActionTokenRoundTrip(action, Nul);
    }
  }

  /** Every document that can be written, with an href without NUL, reads back to that href
      and its action. */
  lemma WbxmlRoundTrip(sl: Loading)
    requires sl.href.Some? && NoNul(sl.href.value) && WbxmlBytes(sl).Ok?
    ensures ParseLoading(WbxmlBytes(sl).value) == Some((Utf8(sl.href.value), sl.action))
  {
    HrefFormEnd(sl.href.value);
    HrefReadsBack(sl.href.value);
    ParseFramed(HrefBytes(sl.href.value, HrefStartTokens, HrefToken).value, sl.action, Utf8(sl.href.value));
  }

  // ---------------------------------------------------------------------
  // Properties of the document

  /** The document fails exactly when the href is null or its form fails. */
  lemma WbxmlFails(sl: Loading)
    ensures WbxmlBytes(sl).Err? <==>
            sl.href.None? || HrefBytes(sl.href.value, HrefStartTokens, HrefToken).Err?
    ensures sl.href.None? ==> WbxmlBytes(sl) == Err(NullValue)
    ensures sl.href.Some? && HrefBytes(sl.href.value, HrefStartTokens, HrefToken).Err? ==>
            WbxmlBytes(sl) == Err(SubstringOutOfRange)
  {
    if sl.href.Some? {
      HrefFails(sl.href.value, HrefStartTokens, HrefToken);
    }
  }

  /** The parameterless constructor gives a document that cannot be written. */
  lemma DefaultFails()
    ensures WbxmlBytes(DefaultLoading()) == Err(NullValue)
  {
  }

  /** The SL prefix table can be read back: distinct tokens, none equal to the generic href token. */
  lemma StartTokensDecodable()
    ensures Decodable(HrefStartTokens, HrefToken)
  {
    assert forall i :: 0 <= i < |HrefStartTokens| ==> HrefStartTokens[i].1 != HrefToken && HrefStartTokens[i].0 != [];
  }

  /** The href of every written SL document reads back from its tokens, for hrefs without NUL. */
  lemma HrefReadsBack(href: string)
    requires NoNul(href)
    ensures var h := HrefBytes(href, HrefStartTokens, HrefToken);
            h.Ok? ==> ExpandHref(h.value, HrefStartTokens, HrefToken, DomainTokens) == Some(Utf8(href))
  {
    StartTokensDecodable();
    HrefRoundTrip(href, HrefStartTokens, HrefToken);
  }
}
