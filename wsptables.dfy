/**
 * The two lookup tables of SharpSMS.Wap.Wsp: well-known content types with
 * their WSP tokens (WAP-230-WSP appendix A, table 40) and push application
 * identifiers with their registered codes. The source fills a Dictionary in
 * its static constructor; here each table is a function of the entry index,
 * in filling order, and a lookup returns the first entry whose name is the key.
 */
module WspTables {
  import opened Text

  /** The index of the first name equal to key at or after from, -1 when there is none. */
  function FirstIndex(names: seq<string>, key: string, from: nat): (r: int)
    requires from <= |names|
    ensures r == -1 || from <= r < |names|
    decreases |names| - from
  {
    if from == |names| then -1
    else if names[from] == key then from
    else FirstIndex(names, key, from + 1)
  }

  lemma {:induction false} FirstIndexSpec(names: seq<string>, key: string, from: nat)
    requires from <= |names|
    ensures var r := FirstIndex(names, key, from);
            (r >= 0 ==> names[r] == key) &&
            (r >= 0 ==> forall t :: from <= t < r ==> names[t] != key) &&
            (r == -1 <==> forall t :: from <= t < |names| ==> names[t] != key)
    decreases |names| - from
  {
    if from < |names| && names[from] != key {
      FirstIndexSpec(names, key, from + 1);
    }
  }

  /** Number of well-known content types; tokens run from 0x00 to 0x4B. */
  const ContentTypeCount: nat := 0x4C

  /** The well-known content type with the given token, in the order the table is filled. */
  function ContentTypeName(token: nat): string
    requires token < ContentTypeCount
  {
    match token
    case 0 => "*/*"
    case 1 => "text/*"
    case 2 => "text/html"
    case 3 => "text/plain"
    case 4 => "text/x-hdml"
    case 5 => "text/x-ttml"
    case 6 => "text/x-vCalendar"
    case 7 => "text/x-vCard"
    case 8 => "text/vnd.wap.wml"
    case 9 => "text/vnd.wap.wmlscript"
    case 10 => "text/vnd.wap.wta-event"
    case 11 => "multipart/*"
    case 12 => "multipart/mixed"
    case 13 => "multipart/form-data"
    case 14 => "multipart/byteranges"
    case 15 => "multipart/alternative"
    case 16 => "application/*"
    case 17 => "application/java-vm"
    case 18 => "application/x-www-form-urlencoded"
    case 19 => "application/x-hdmlc"
    case 20 => "application/vnd.wap.wmlc"
    case 21 => "application/vnd.wap.wmlscriptc"
    case 22 => "application/vnd.wap.wta-eventc"
    case 23 => "application/vnd.wap.uaprof"
    case 24 => "application/vnd.wap.wtls-ca-certificate"
    case 25 => "application/vnd.wap.wtls-user-certificate"
    case 26 => "application/x-x509-ca-cert"
    case 27 => "application/x-x509-user-cert"
    case 28 => "image/*"
    case 29 => "image/gif"
    case 30 => "image/jpeg"
    case 31 => "image/tiff"
    case 32 => "image/png"
    case 33 => "image/vnd.wap.wbmp"
    case 34 => "application/vnd.wap.multipart.*"
    case 35 => "application/vnd.wap.multipart.mixed"
    case 36 => "application/vnd.wap.multipart.form-data"
    case 37 => "application/vnd.wap.multipart.byteranges"
    case 38 => "application/vnd.wap.multipart.alternative"
    case 39 => "application/xml"
    case 40 => "text/xml"
    case 41 => "application/vnd.wap.wbxml"
    case 42 => "application/x-x968-cross-cert"
    case 43 => "application/x-x968-ca-cert"
    case 44 => "application/x-x968-user-cert"
    case 45 => "text/vnd.wap.si"
    case 46 => "application/vnd.wap.sic"
    case 47 => "text/vnd.wap.sl"
    case 48 => "application/vnd.wap.slc"
    case 49 => "text/vnd.wap.co"
    case 50 => "application/vnd.wap.coc"
    case 51 => "application/vnd.wap.multipart.related"
    case 52 => "application/vnd.wap.sia"
    case 53 => "text/vnd.wap.connectivity-xml"
    case 54 => "application/vnd.wap.connectivity-wbxml"
    case 55 => "application/pkcs7-mime"
    case 56 => "application/vnd.wap.hashed-certificate"
    case 57 => "application/vnd.wap.signed-certificate"
    case 58 => "application/vnd.wap.cert-response"
    case 59 => "application/xhtml+xml"
    case 60 => "application/wml+xml"
    case 61 => "text/css"
    case 62 => "application/vnd.wap.mms-message"
    case 63 => "application/vnd.wap.rollover-certificate"
    case 64 => "application/vnd.wap.locc+wbxml"
    case 65 => "application/vnd.wap.loc+xml"
    case 66 => "application/vnd.syncml.dm+wbxml"
    case 67 => "application/vnd.syncml.dm+xml"
    case 68 => "application/vnd.syncml.notification"
    case 69 => "application/vnd.wap.xhtml+xml"
    case 70 => "application/vnd.wv.csp.cir"
    case 71 => "application/vnd.oma.dd+xml"
    case 72 => "application/vnd.oma.drm.message"
    case 73 => "application/vnd.oma.drm.content"
    case 74 => "application/vnd.oma.drm.rights+xml"
    case _ => "application/vnd.oma.drm.rights+wbxml"
  }

  function ContentTypeTable(): (names: seq<string>)
    ensures |names| == ContentTypeCount
  {
    seq(ContentTypeCount, t requires 0 <= t < ContentTypeCount => ContentTypeName(t))
  }

  /** `Wsp.GetContentType`: the token of a well-known content type, -1 when the table lacks it. */
  function GetContentType(contentType: string): (token: int)
    ensures -1 <= token < ContentTypeCount
  {
    FirstIndex(ContentTypeTable(), contentType, 0)
  }

  /** The lookup finds the entry with the given name, and gives -1 exactly when there is none. */
  lemma GetContentTypeSpec(contentType: string)
    ensures var token := GetContentType(contentType);
            (token >= 0 ==> ContentTypeName(token) == contentType) &&
            (token == -1 <==> forall t :: 0 <= t < ContentTypeCount ==> ContentTypeName(t) != contentType)
  {
    FirstIndexSpec(ContentTypeTable(), contentType, 0);
    var names := ContentTypeTable();
    assert forall t :: 0 <= t < ContentTypeCount ==> names[t] == ContentTypeName(t);
  }

  /** Two table entries carry upper-case letters, but lookups use the lower-cased name:
      the tokens for text/x-vCalendar (0x06) and text/x-vCard (0x07) are never produced. */
  lemma LowercaseLookupMissesMixedCaseEntries(contentType: string)
    ensures GetContentType(ToLower(contentType)) != 0x06
    ensures GetContentType(ToLower(contentType)) != 0x07
  {
    var low := ToLower(contentType);
    var token := GetContentType(low);
    if token == 6 || token == 7 {
      GetContentTypeSpec(low);
      assert low[8] == ContentTypeName(token)[8] == 'C';
      LowerHasNoCapital(contentType, 8);
    }
  }

  const ApplicationTypeCount: nat := 23

  /** The registered push application identifiers, in the order the table is filled. */
  function ApplicationTypeName(i: nat): string
    requires i < ApplicationTypeCount
  {
    match i
    case 0 => "x-wap-application:*"
    case 1 => "x-wap-application:push.sia"
    case 2 => "x-wap-application:wml.ua"
    case 3 => "x-wap-application:wta.ua"
    case 4 => "x-wap-application:mms.ua"
    case 5 => "x-wap-application:push.syncml"
    case 6 => "x-wap-application:loc.ua"
    case 7 => "x-wap-application:syncml.dm"
    case 8 => "x-wap-application:drm.ua"
    case 9 => "x-wap-application:emn.ua"
    case 10 => "x-wap-application:wv.ua"
    case 11 => "x-wap-microsoft:localcontent.ua"
    case 12 => "x-wap-microsoft:imclient.ua "
    case 13 => "x-wap-docomo:imode.mail.ua "
    case 14 => "x-wap-docomo:imode.mr.ua"
    case 15 => "x-wap-docomo:imode.mf.ua"
    case 16 => "x-motorola:location.ua "
    case 17 => "x-motorola:now.ua"
    case 18 => "x-motorola:otaprov.ua"
    case 19 => "x-motorola:browser.ua"
    case 20 => "x-motorola:splash.ua"
    case 21 => "x-wap-nai:mvsw.command "
    case _ => "x-wap-openwave:iota.ua"
  }

  /** The code registered for application identifier i. */
  function ApplicationTypeCode(i: nat): (code: nat)
    requires i < ApplicationTypeCount
    ensures code <= 0x0A || 0x8000 <= code <= 0x8010
  {
    match i
    case 0 => 0x00
    case 1 => 0x01
    case 2 => 0x02
    case 3 => 0x03
    case 4 => 0x04
    case 5 => 0x05
    case 6 => 0x06
    case 7 => 0x07
    case 8 => 0x08
    case 9 => 0x09
    case 10 => 0x0A
    case 11 => 0x8000
    case 12 => 0x8001
    case 13 => 0x8002
    case 14 => 0x8003
    case 15 => 0x8004
    case 16 => 0x8005
    case 17 => 0x8006
    case 18 => 0x8007
    case 19 => 0x8008
    case 20 => 0x8009
    case 21 => 0x800B
    case _ => 0x8010
  }

  function ApplicationNames(): (names: seq<string>)
    ensures |names| == ApplicationTypeCount
  {
    seq(ApplicationTypeCount, i requires 0 <= i < ApplicationTypeCount => ApplicationTypeName(i))
  }

  /** `Wsp.GetpplicationType`: the code of a registered push application, -1 when the table lacks it. */
  function GetApplicationType(applicationType: string): (code: int)
    ensures code == -1 || 0 <= code <= 0x0A || 0x8000 <= code <= 0x8010
  {
    var i := FirstIndex(ApplicationNames(), applicationType, 0);
    if i == -1 then -1 else ApplicationTypeCode(i)
  }

  /** The lookup returns the code of the entry with the given name, and -1 exactly when there is none. */
  lemma GetApplicationTypeSpec(applicationType: string)
    ensures var code := GetApplicationType(applicationType);
            (code != -1 ==> exists i :: 0 <= i < ApplicationTypeCount && ApplicationTypeName(i) == applicationType && ApplicationTypeCode(i) == code) &&
            (code == -1 <==> forall i :: 0 <= i < ApplicationTypeCount ==> ApplicationTypeName(i) != applicationType)
  {
    var names := ApplicationNames();
    FirstIndexSpec(names, applicationType, 0);
    assert forall i :: 0 <= i < ApplicationTypeCount ==> names[i] == ApplicationTypeName(i);
    var i := FirstIndex(names, applicationType, 0);
    if i != -1 {
      assert ApplicationTypeName(i) == applicationType;
    }
  }
}
