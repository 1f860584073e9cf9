/** The message `create_outlook_emails` composes for one group: a
    multipart message with `Subject`, `To` and `From` headers, a plain-text
    body naming the key, and the group's workbook attached. */
module Email {
  import opened Base
  import opened Recipients

  const SubjectPrefix := "Split Excel File - "
  const Sender := "your_email@example.com"
  const BodyPrefix := "Please find attached the Excel file for "
  const BodySuffix := "."
  const DispositionPrefix := "attachment; filename=\""
  const DispositionSuffix := "\""
  const XlsxSubtype := "vnd.openxmlformats-officedocument.spreadsheetml.sheet"

  datatype Header = Header(name: string, value: string)

  /** A part of the multipart message: the text body (`MIMEText`, subtype
      `plain`), or a binary attachment (`MIMEBase`) with its payload, its
      transfer encoding and its `Content-Disposition` header. */
  datatype Part =
    | TextPart(subtype: string, text: string)
    | BinaryPart(mainType: string, subType: string, payload: Bytes, transferEncoding: string, disposition: string)

  /** The headers set on the message, in the order they were set, and the
      parts attached to it. */
  datatype Message = Message(headers: seq<Header>, parts: seq<Part>)

  /** The value of the first header called `name`, as `msg[name]` reads it. */
  function GetHeader(m: Message, name: string): (v: Option<string>)
    ensures v.Some? <==> exists i :: 0 <= i < |m.headers| && m.headers[i].name == name
    ensures v.Some? ==> exists i :: 0 <= i < |m.headers| && m.headers[i] == Header(name, v.value) && NoneNamed(m.headers[..i], name)
  {
    FirstValue(m.headers, name)
  }

  /** No header in `hs` is called `name`. */
  predicate NoneNamed(hs: seq<Header>, name: string)
  {
    forall j :: 0 <= j < |hs| ==> hs[j].name != name
  }

  function FirstValue(hs: seq<Header>, name: string): (v: Option<string>)
    ensures v.Some? <==> exists i :: 0 <= i < |hs| && hs[i].name == name
    ensures v.Some? ==> exists i :: 0 <= i < |hs| && hs[i] == Header(name, v.value) && NoneNamed(hs[..i], name)
  {
    if |hs| == 0 then None
    else if hs[0].name == name then
      assert hs[0] == Header(name, hs[0].value) && NoneNamed(hs[..0], name);
      Some(hs[0].value)
    else
      var v := FirstValue(hs[1..], name);
      assert forall i :: 1 <= i < |hs| ==> hs[i] == hs[1..][i - 1];
      assert v.Some? ==> exists i :: 0 <= i < |hs[1..]| && hs[1..][i].name == name;
      assert v.Some? ==> exists i :: 0 <= i < |hs| && hs[i] == Header(name, v.value) && NoneNamed(hs[..i], name) by {
        if v.Some? {
          var k :| 0 <= k < |hs[1..]| && hs[1..][k] == Header(name, v.value) && NoneNamed(hs[1..][..k], name);
          assert hs[..k + 1] == [hs[0]] + hs[1..][..k];
          assert hs[k + 1] == Header(name, v.value) && NoneNamed(hs[..k + 1], name);
        }
      }
      v
  }

  lemma FirstValueStep(hs: seq<Header>, name: string)
    requires |hs| > 0
    ensures FirstValue(hs, name) == if hs[0].name == name then Some(hs[0].value) else FirstValue(hs[1..], name)
  {
  }

  /** The middle of `s` when it starts with `prefix` and ends with `suffix`
      (without overlap). */
  function Between(s: string, prefix: string, suffix: string): (r: Option<string>)
    ensures r.Some? ==> s == prefix + r.value + suffix
  {
    if |prefix| + |suffix| <= |s| && s[..|prefix|] == prefix && s[|s| - |suffix|..] == suffix then
      var m := s[|prefix|..|s| - |suffix|];
      assert s == s[..|prefix|] + m + s[|s| - |suffix|..];
      Some(m)
    else None
  }

  lemma BetweenOf(prefix: string, m: string, suffix: string)
    ensures Between(prefix + m + suffix, prefix, suffix) == Some(m)
  {
    var s := prefix + m + suffix;
    assert s[..|prefix|] == prefix;
    assert s[|s| - |suffix|..] == suffix;
    assert s[|prefix|..|s| - |suffix|] == m;
  }

  /** The key a subject line names. */
  function SubjectKey(subject: string): Option<string>
  {
    Between(subject, SubjectPrefix, "")
  }

  /** The key a body text names. */
  function BodyKey(body: string): Option<string>
  {
    Between(body, BodyPrefix, BodySuffix)
  }

  /** The file name a `Content-Disposition` header gives the attachment. */
  function DispositionFilename(disposition: string): Option<string>
  {
    Between(disposition, DispositionPrefix, DispositionSuffix)
  }

  /** The message for the group with key `key`, the group's workbook
      `xlsx` and the recipients, as the header assignments and `attach`
      calls of one loop iteration leave it. */
  function Compose(key: string, xlsx: Bytes, recipients: seq<string>): (m: Message)
    ensures |m.parts| == 2 && m.parts[1].BinaryPart? && m.parts[1].payload == xlsx
    ensures DispositionFilename(m.parts[1].disposition) == Some(key + ".xlsx")
  {
    BetweenOf(DispositionPrefix, key + ".xlsx", DispositionSuffix);
    Message(
      [Header("Subject", SubjectPrefix + key), Header("To", ToHeader(recipients)), Header("From", Sender)],
      [TextPart("plain", BodyPrefix + key + BodySuffix),
       BinaryPart("application", XlsxSubtype, xlsx, "base64", DispositionPrefix + (key + ".xlsx") + DispositionSuffix)])
  }

  /** What the composed message says: the subject and the body name the
      key, the `To` header lists the recipients (and is the recipient
      itself when there is one), the sender is the fixed placeholder, and
      the one attachment is the workbook, base64-encoded, named after the
      key. */
  lemma ComposedMessage(key: string, xlsx: Bytes, recipients: seq<string>)
    ensures var m := Compose(key, xlsx, recipients);
      && GetHeader(m, "Subject").Some? && SubjectKey(GetHeader(m, "Subject").value) == Some(key)
      && GetHeader(m, "To") == Some(ToHeader(recipients))
      && (IsAddressList(recipients, ';') ==> ParseAddressList(GetHeader(m, "To").value) == recipients)
      && (|recipients| == 1 ==> GetHeader(m, "To") == Some(recipients[0]))
      && GetHeader(m, "From") == Some(Sender)
      && |m.parts| == 2
      && m.parts[0].TextPart? && m.parts[0].subtype == "plain" && BodyKey(m.parts[0].text) == Some(key)
      && m.parts[1].BinaryPart? && m.parts[1].payload == xlsx && m.parts[1].transferEncoding == "base64"
      && m.parts[1].mainType == "application" && m.parts[1].subType == XlsxSubtype
      && DispositionFilename(m.parts[1].disposition) == Some(key + ".xlsx")
  {
    var m := Compose(key, xlsx, recipients);
    BetweenOf(SubjectPrefix, key, "");
    assert SubjectPrefix + key + "" == SubjectPrefix + key;
    BetweenOf(BodyPrefix, key, BodySuffix);
    BetweenOf(DispositionPrefix, key + ".xlsx", DispositionSuffix);
    if IsAddressList(recipients, ';') {
      ToHeaderRoundTrip(recipients);
    }
    var hs := m.headers;
    assert "Subject"[0] != "To"[0] && "Subject"[0] != "From"[0] && "To"[0] != "From"[0];
    FirstValueStep(hs, "To");
    FirstValueStep(hs[1..], "To");
    FirstValueStep(hs, "From");
    FirstValueStep(hs[1..], "From");
    FirstValueStep(hs[1..][1..], "From");
  }

  /** The message object of `email.mime`, updated in place: item
      assignment appends a header, `attach` appends a part. */
  class MimeMultipart {
    var headers: seq<Header>
    var parts: seq<Part>

    constructor ()
      ensures headers == [] && parts == []
    {
      headers, parts := [], [];
    }

    function Value(): Message
      reads this
    {
      Message(headers, parts)
    }

    /** `msg[name] = value`: adds a header after the existing ones. */
    method SetItem(name: string, value: string)
      modifies this
      ensures headers == old(headers) + [Header(name, value)] && parts == old(parts)
    {
      headers := headers + [Header(name, value)];
    }

    /** `msg.attach(part)`. */
    method Attach(part: Part)
      modifies this
      ensures parts == old(parts) + [part] && headers == old(headers)
    {
      parts := parts + [part];
    }
  }

  /** The statements that build `msg` for one group, one header and one
      part at a time. */
  method ComposeMessage(key: string, xlsx: Bytes, recipients: seq<string>) returns (msg: MimeMultipart)
    ensures fresh(msg) && msg.Value() == Compose(key, xlsx, recipients)
  {
    msg := new MimeMultipart();
    msg.SetItem("Subject", SubjectPrefix + key);
    msg.SetItem("To", ToHeader(recipients));
    msg.SetItem("From", Sender);
    msg.Attach(TextPart("plain", BodyPrefix + key + BodySuffix));
    var part := BinaryPart("application", XlsxSubtype, xlsx, "base64",
                           DispositionPrefix + (key + ".xlsx") + DispositionSuffix);
    msg.Attach(part);
  }
}
