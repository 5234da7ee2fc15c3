/**
 * SharpSMS.Wbxml.ServiceIndication: a Service Indication (WAP-167) tokenised as WBXML.
 * The document is `<si><indication href=... [action] [created] [si-expires] [si-id]>text</indication></si>`
 * with the href compressed by the prefix and domain token tables.
 */
module ServiceIndication {
  import opened Wrappers
  import opened Arith
  import opened Text
  import opened WbxmlDocument
  import opened HrefTokens

  /** The MIME type the constructor gives the document. */
  const ContentType: string := "application/vnd.wap.sic"

  const DocumentDtd: byte := 0x05
  const TagSi: byte := 0x05
  const TagIndication: byte := 0x06
  const CreatedToken: byte := 0x0A
  const HrefToken: byte := 0x0B
  const ExpiresToken: byte := 0x10
  const IdToken: byte := 0x11

  /** The href prefixes in the order the constructor adds them. */
  const HrefStartTokens: Table :=
    [("https://www.", 0x0F), ("http://www.", 0x0D), ("https://", 0x0E), ("http://", 0x0C)]

  /** The value of the SI `action` attribute; `NotSet` writes no attribute (SharpSMS/Wbxml/ServiceIndicationAction.cs). */
  datatype Action = NotSet | SignalNone | SignalLow | SignalMedium | SignalHigh | Delete

  /** The properties `GetWBXMLBytes` reads. A null string is `None`; an unset date is `MinValue`. */
  datatype Indication = Indication(
    text: Option<string>, href: Option<string>, action: Action,
    created: DateTime, expires: DateTime, id: Option<string>)
  {
    /** Both dates are .NET `DateTime` values, which are always in range. */
    predicate Valid()
    {
      created.Valid() && expires.Valid()
    }
  }

  // ---------------------------------------------------------------------
  // Constructors

  /** `ServiceIndication(text, href, action)`; the parameterless constructor leaves every
      string null, the action `NotSet` and both dates `MinValue`. */
  function NewIndication(text: Option<string>, href: Option<string>, action: Action): (si: Indication)
    ensures si.Valid()
    ensures si.text == text && si.href == href && si.action == action
    ensures si.created == MinValue && si.expires == MinValue && si.id.None?
  {
    Indication(text, href, action, MinValue, MinValue, None)
  }

  /** `ServiceIndication()`: nothing set. */
  function DefaultIndication(): (si: Indication)
    ensures si.Valid() && si.text.None? && si.href.None? && si.action == NotSet
  {
    NewIndication(None, None, NotSet)
  }

  /** `ServiceIndication(text, href)`: no action. */
  function TextIndication(text: Option<string>, href: Option<string>): (si: Indication)
    ensures si.Valid() && si.text == text && si.href == href && si.action == NotSet
  {
    NewIndication(text, href, NotSet)
  }

  // ---------------------------------------------------------------------
  // Action tokens

  /** `GetActionToken`: the attribute-start token of an action; `NotSet` falls to the default
      branch with `Signal_none`. */
  function ActionToken(action: Action): (r: byte)
    ensures 0x05 <= r <= 0x09
    ensures r == 0x05 <==> action == NotSet || action == SignalNone
  {
    match action
      case Delete => 0x09
      case SignalHigh => 0x08
      case SignalLow => 0x06
      case SignalMedium => 0x07
      case _ => 0x05
  }

  /** Different set actions have different tokens, and the signal tokens rise with the level. */
  lemma ActionTokensDistinct(a: Action, b: Action)
    requires a != NotSet && b != NotSet
    ensures ActionToken(a) == ActionToken(b) <==> a == b
    ensures ActionToken(SignalNone) < ActionToken(SignalLow) < ActionToken(SignalMedium) < ActionToken(SignalHigh)
  {
  }

  // ---------------------------------------------------------------------
  // The document

  /** The WBXML prolog and the two opening tags: version 1.2, the SI public identifier, UTF-8,
      an empty string table, `<si>` with content and `<indication>` with attributes and content. */
  function Head(): (h: seq<byte>)
    ensures h == [0x02, 0x05, 0x6A, 0x00, 0x45, 0xC6]
  {
    [Version12, DocumentDtd, CharsetUtf8, Nul,
     SetTagTokenIndications(TagSi, false, true), SetTagTokenIndications(TagIndication, true, true)]
  }

  /** The action attribute, present only when the action is set. */
  function ActionPart(action: Action): (r: seq<byte>)
    ensures |r| <= 1 && (r == [] <==> action == NotSet)
  {
    if action != NotSet then [ActionToken(action)] else []
  }

  /** A date attribute, present only when the date is not `MinValue`. */
  function DatePart(token: byte, date: DateTime): (r: seq<byte>)
    requires date.Valid()
    ensures r == [] <==> date == MinValue
    ensures r != [] ==> r[0] == token && r[1..] == OpaqueDate(date)
  {
    if date != MinValue then [token] + OpaqueDate(date) else []
  }

  /** The si-id attribute, present only when the id is not null. */
  function IdPart(id: Option<string>): (r: seq<byte>)
    ensures r == [] <==> id.None?
    ensures r != [] ==> r[0] == IdToken && r[1..] == InlineString(id.value)
  {
    if id.Some? then [IdToken] + InlineString(id.value) else []
  }

  /** The optional attributes in the order they are written: action, created, si-expires, si-id. */
  function AttributeBytes(si: Indication): seq<byte>
    requires si.Valid()
  {
    ActionPart(si.action) + DatePart(CreatedToken, si.created) + DatePart(ExpiresToken, si.expires) + IdPart(si.id)
  }

  /** What follows the attributes: the end of `<indication>`, the text and the two end tokens. */
  function Tail(text: string): (r: seq<byte>)
    ensures |r| >= 4 && r[0] == TagTokenEnd && r[|r| - 2..] == [TagTokenEnd, TagTokenEnd]
  {
    [TagTokenEnd] + InlineString(text) + [TagTokenEnd, TagTokenEnd]
  }

  /** `GetWBXMLBytes` as a value: a null href fails at `StartsWith`, a domain ending inside the
      prefix fails at `Substring`, and a null text fails when it is encoded. */
  function WbxmlBytes(si: Indication): (r: Result<seq<byte>>)
    requires si.Valid()
  {
    if si.href.None? then Err(NullValue)
    else
      var href := HrefBytes(si.href.value, HrefStartTokens, HrefToken);
      if href.Err? then Err(href.error)
      else if si.text.None? then Err(NullValue)
      else Ok(Head() + href.value + AttributeBytes(si) + Tail(si.text.value))
  }

  /** `GetWBXMLBytes`: the prolog and opening tags, the href, the optional attributes, the end of
      `<indication>`, the text and the two closing tags, appended one after another. */
  method GetWbxmlBytes(si: Indication) returns (r: Result<seq<byte>>)
    requires si.Valid()
    ensures r == WbxmlBytes(si)
  {
    if si.href.None? {
      return Err(NullValue);
    }
    var stream := [Version12, DocumentDtd, CharsetUtf8, Nul];
    stream := stream + [SetTagTokenIndications(TagSi, false, true)];
    stream := stream + [SetTagTokenIndications(TagIndication, true, true)];
    assert stream == Head();
    var written := WriteHref(stream, si.href.value, HrefStartTokens, HrefToken);
    if written.Err? {
      return Err(written.error);
    }
    stream := WriteAttributes(written.value, si);
    stream := stream + [TagTokenEnd];
    if si.text.None? {
      return Err(NullValue);
    }
    stream := WriteInlineString(stream, si.text.value);
    stream := stream + [TagTokenEnd];
    stream := stream + [TagTokenEnd];
    TailAppends(Head() + HrefBytes(si.href.value, HrefStartTokens, HrefToken).value + AttributeBytes(si), si.text.value);
    r := Ok(stream);
  }

  /** The closing writes append the tail. */
  lemma TailAppends(s: seq<byte>, text: string)
    ensures s + [TagTokenEnd] + InlineString(text) + [TagTokenEnd] + [TagTokenEnd] == s + Tail(text)
  {
    AppendFour(s, [TagTokenEnd], InlineString(text), [TagTokenEnd], [TagTokenEnd]);
    assert [TagTokenEnd] + InlineString(text) + [TagTokenEnd] + [TagTokenEnd] == Tail(text);
  }

  /** The attribute writes of `GetWBXMLBytes`, each under its own condition. */
  method WriteAttributes(stream: seq<byte>, si: Indication) returns (r: seq<byte>)
    requires si.Valid()
    ensures r == stream + AttributeBytes(si)
  {
    r := stream;
    if si.action != NotSet {
      r := r + [ActionToken(si.action)];
    }
    assert r == stream + ActionPart(si.action);
    ghost var s1 := r;
    if si.created != MinValue {
      r := r + [CreatedToken];
      r := WriteDate(r, si.created);
      AppendAssoc(s1, [CreatedToken], OpaqueDate(si.created));
    }
    assert r == s1 + DatePart(CreatedToken, si.created);
    ghost var s2 := r;
    if si.expires != MinValue {
      r := r + [ExpiresToken];
      r := WriteDate(r, si.expires);
      AppendAssoc(s2, [ExpiresToken], OpaqueDate(si.expires));
    }
    assert r == s2 + DatePart(ExpiresToken, si.expires);
    ghost var s3 := r;
    if si.id.Some? {
      r := r + [IdToken];
      r := WriteInlineString(r, si.id.value);
      AppendAssoc(s3, [IdToken], InlineString(si.id.value));
    }
    assert r == s3 + IdPart(si.id);
    AppendFour(stream, ActionPart(si.action), DatePart(CreatedToken, si.created), DatePart(ExpiresToken, si.expires), IdPart(si.id));
  }

  // ---------------------------------------------------------------------
  // Properties of the document

  /** The document fails exactly when the href is null, the href form fails or the text is
      null, and in that order of precedence. */
  lemma WbxmlFails(si: Indication)
    requires si.Valid()
    ensures WbxmlBytes(si).Err? <==>
            si.href.None? || HrefBytes(si.href.value, HrefStartTokens, HrefToken).Err? || si.text.None?
    ensures si.href.None? ==> WbxmlBytes(si) == Err(NullValue)
    ensures si.href.Some? && HrefBytes(si.href.value, HrefStartTokens, HrefToken).Err? ==>
            WbxmlBytes(si) == Err(SubstringOutOfRange)
  {
    if si.href.Some? {
      HrefFails(si.href.value, HrefStartTokens, HrefToken);
    }
  }

  /** A written document opens with the prolog and the two tags and closes with the end of
      `<indication>`, the text as an inline string and the two end tokens. */
  lemma WbxmlLayout(si: Indication)
    requires si.Valid() && WbxmlBytes(si).Ok?
    ensures WbxmlBytes(si).value[..6] == [0x02, 0x05, 0x6A, 0x00, 0x45, 0xC6]
    ensures var r, t := WbxmlBytes(si).value, Tail(si.text.value);
            |r| >= 6 + |t| && r[|r| - |t|..] == t
  {
    Framed(HrefBytes(si.href.value, HrefStartTokens, HrefToken).value, AttributeBytes(si), Tail(si.text.value));
  }

  /** The head and the tail frame whatever is written between them. */
  lemma Framed(h: seq<byte>, attributes: seq<byte>, t: seq<byte>)
    ensures var r := Head() + h + attributes + t;
            r[..6] == Head() && |r| >= 6 + |t| && r[|r| - |t|..] == t
  {
    var front := Head() + h + attributes;
    AppendAssoc(Head(), h, attributes);
    assert front[..6] == Head();
    assert (front + t)[..6] == Head();
    DropPrefix(front, t);
  }

  /** A document made by a constructor carries at most the action attribute. */
  lemma ConstructedAttributes(text: Option<string>, href: Option<string>, action: Action)
    ensures AttributeBytes(NewIndication(text, href, action)) ==
            if action != NotSet then [ActionToken(action)] else []
  {
    var si := NewIndication(text, href, action);
    assert AttributeBytes(si) == ActionPart(action) + [] + [] + [];
  }

  /** The parameterless constructor gives a document that cannot be written. */
  lemma DefaultFails()
    ensures WbxmlBytes(DefaultIndication()) == Err(NullValue)
  {
  }

  /** The SI prefix table can be read back: distinct tokens, none equal to the generic href token. */
  lemma StartTokensDecodable()
    ensures Decodable(HrefStartTokens, HrefToken)
  {
    assert forall i :: 0 <= i < |HrefStartTokens| ==> HrefStartTokens[i].1 != HrefToken && HrefStartTokens[i].0 != [];
  }

  /** The href of every written SI document reads back from its tokens, for hrefs without NUL. */
  lemma HrefReadsBack(href: string)
    requires NoNul(href)
    ensures var h := HrefBytes(href, HrefStartTokens, HrefToken);
            h.Ok? ==> ExpandHref(h.value, HrefStartTokens, HrefToken, DomainTokens) == Some(Utf8(href))
  {
    StartTokensDecodable();
    HrefRoundTrip(href, HrefStartTokens, HrefToken);
  }
}
