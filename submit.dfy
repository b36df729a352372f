/**
 * The `/submit` handler: check the form, turn the submitted text into the
 * intake envelope, publish it to the intake topic keyed by its id, and
 * redirect to the confirmation page carrying that id. The UUID, the clock
 * reading (as its ISO-8601 string) and the producer's outcome are inputs.
 */
module Submit {

  import opened Wrappers
  import opened JsStrings
  import opened UriComponent
  import opened KafkaClientConfig

  /** The posted form fields; None is a field that is absent from the body. */
  datatype SubmitForm = SubmitForm(selectedFile: Option<string>, content: Option<string>)

  /**
   * The event published to the intake topic. The six reserved fields are
   * `null` (None) and `error` is empty when the server creates it; later
   * pipeline stages fill them.
   */
  datatype Envelope = Envelope(
    id: string,
    content: string,
    timestamp: string,
    structured: Option<string>,
    route: Option<string>,
    support: Option<string>,
    website: Option<string>,
    finance: Option<string>,
    comment: Option<string>,
    error: seq<string>)

  /** One Kafka message: its topic, key and value. */
  datatype ProducerRecord = ProducerRecord(topic: string, key: string, value: Envelope)

  /**
   * How the producer's `connect`, `send` and `disconnect` went: all three
   * succeeded, or the first that threw and its error message.
   */
  datatype BrokerOutcome =
    | Acknowledged
    | ConnectFailed(message: string)
    | SendFailed(message: string)
    | DisconnectFailed(message: string)

  /** The HTTP response the handler gives. */
  datatype Response =
    | BadRequest(status: nat, text: string)
    | Redirect(location: string)
    | ErrorPage(status: nat, errorMessage: string, kafkaBroker: string, kafkaTopic: string,
                kafkaSecurityProtocol: Option<string>)

  /** The messages the broker accepted during one request, and the response. */
  datatype Submission = Submission(published: seq<ProducerRecord>, response: Response)

  /** `!selectedFile || !content`. */
  predicate MissingFields(form: SubmitForm) {
    !Truthy(form.selectedFile) || !Truthy(form.content)
  }

  /** `uuidv4().replace(/-/g, '')`. */
  function MessageId(uuid: string): string {
    RemoveAllChar(uuid, '-')
  }

  /** `new Date().toISOString().replace('T', ' ').replace('Z', '')`, from the ISO string. */
  function Timestamp(iso: string): string {
    ReplaceFirst(ReplaceFirst(iso, "T", " "), "Z", "")
  }

  /** The reserved fields hold their creation defaults: five nulls and no errors. */
  predicate ReservedFieldsEmpty(e: Envelope) {
    && e.structured.None? && e.route.None? && e.support.None?
    && e.website.None? && e.finance.None? && e.comment.None?
    && e.error == []
  }

  /** The `kafkaMessage` literal. */
  function NewEnvelope(id: string, content: string, timestamp: string): (e: Envelope)
    ensures e.id == id && e.content == content && e.timestamp == timestamp
    ensures ReservedFieldsEmpty(e)
  {
    Envelope(id, content, timestamp, None, None, None, None, None, None, [])
  }

  /** The confirmation URL: `/success?id=${messageId}&file=${encodeURIComponent(selectedFile)}`. */
  function SuccessLocation(messageId: string, selectedFile: string): string {
    "/success?id=" + messageId + "&file=" + EncodeURIComponent(selectedFile)
  }

  /** The 500 page: the error message and the broker, topic and security protocol in use. */
  function FailurePage(env: Environment, message: string): Response {
    ErrorPage(500, message, Broker(env), IntakeTopic(env), env.securityProtocol)
  }

  /**
   * The `/submit` handler for one request. A missing field gives 400 and
   * nothing is sent. Otherwise the envelope is sent to the intake topic
   * keyed by its id; a failure to connect or to send publishes nothing, and
   * a failure to disconnect comes after the message was accepted. Any
   * failure gives the 500 page; success gives the redirect.
   */
  function HandleSubmit(env: Environment, form: SubmitForm, uuid: string, isoNow: string,
                        broker: BrokerOutcome): Submission
  {
    if MissingFields(form) then Submission([], BadRequest(400, "Missing required fields"))
    else
      var messageId := MessageId(uuid);
      var timestamp := Timestamp(isoNow);
      var kafkaMessage := NewEnvelope(messageId, form.content.value, timestamp);
      var record := ProducerRecord(IntakeTopic(env), messageId, kafkaMessage);
      match broker
      case Acknowledged => Submission([record], Redirect(SuccessLocation(messageId, form.selectedFile.value)))
      case ConnectFailed(m) => Submission([], FailurePage(env, m))
      case SendFailed(m) => Submission([], FailurePage(env, m))
      case DisconnectFailed(m) => Submission([record], FailurePage(env, m))
  }

  predicate IsDigit(ch: char) {
    '0' <= ch <= '9'
  }

  predicate IsLowerHex(ch: char) {
    ('0' <= ch <= '9') || ('a' <= ch <= 'f')
  }

  /**
   * One character against one shape character: `d` is a decimal digit, `x`
   * a lower-case hexadecimal digit, `y` one of `89ab`; any other shape
   * character stands for itself.
   */
  predicate FitsChar(ch: char, shape: char) {
    if shape == 'd' then IsDigit(ch)
    else if shape == 'x' then IsLowerHex(ch)
    else if shape == 'y' then ch == '8' || ch == '9' || ch == 'a' || ch == 'b'
    else ch == shape
  }

  predicate Fits(s: string, shape: string) {
    |s| == |shape| && forall i :: 0 <= i < |s| ==> FitsChar(s[i], shape[i])
  }

  /** What `uuidv4()` returns: a version-4, variant-1 UUID in lower case. */
  const UuidV4Shape: string := "xxxxxxxx-xxxx-4xxx-yxxx-xxxxxxxxxxxx"

  /** What `Date.prototype.toISOString()` returns for a year from 0 to 9999. */
  const IsoInstantShape: string := "dddd-dd-ddTdd:dd:dd.dddZ"

  /** The envelope's timestamp format. */
  const TimestampShape: string := "dddd-dd-dd dd:dd:dd.ddd"

  /** A UUID holds dashes at 8, 13, 18 and 23, lower-case hex digits elsewhere, and `4` at 14. */
  lemma UuidLayout(uuid: string)
    requires Fits(uuid, UuidV4Shape)
    ensures |uuid| == 36
    ensures uuid[8] == '-' && uuid[13] == '-' && uuid[18] == '-' && uuid[23] == '-' && uuid[14] == '4'
    ensures forall i :: 0 <= i < 36 && i != 8 && i != 13 && i != 18 && i != 23 ==> IsLowerHex(uuid[i])
  {
    var shape := UuidV4Shape;
    forall i | 0 <= i < 36 && i != 8 && i != 13 && i != 18 && i != 23 ensures IsLowerHex(uuid[i]) {
      assert FitsChar(uuid[i], shape[i]);
    }
    assert FitsChar(uuid[8], shape[8]) && FitsChar(uuid[13], shape[13]);
    assert FitsChar(uuid[18], shape[18]) && FitsChar(uuid[23], shape[23]);
    assert FitsChar(uuid[14], shape[14]);
  }

  /** Dropping the dashes between five dash-free groups joins the groups. */
  lemma RemoveDashesBetween(a: string, b: string, c: string, d: string, e: string)
    requires '-' !in a && '-' !in b && '-' !in c && '-' !in d && '-' !in e
    ensures RemoveAllChar(a + "-" + b + "-" + c + "-" + d + "-" + e, '-') == a + b + c + d + e
  {
    RemoveCharBefore(a + "-" + b + "-" + c + "-" + d, '-', e);
    RemoveCharBefore(a + "-" + b + "-" + c, '-', d);
    RemoveCharBefore(a + "-" + b, '-', c);
    RemoveCharBefore(a, '-', b);
  }

  /** The five dash-free groups of hexadecimal digits a UUID is made of. */
  lemma UuidGroups(uuid: string) returns (a: string, b: string, c: string, d: string, e: string)
    requires Fits(uuid, UuidV4Shape)
    ensures a == uuid[..8] && b == uuid[9..13] && c == uuid[14..18] && d == uuid[19..23] && e == uuid[24..]
    ensures uuid == a + "-" + b + "-" + c + "-" + d + "-" + e
    ensures |a| == 8 && |b| == 4 && |c| == 4 && |d| == 4 && |e| == 12 && c[0] == '4'
    ensures forall i :: 0 <= i < |a + b + c + d + e| ==> IsLowerHex((a + b + c + d + e)[i])
  {
    UuidLayout(uuid);
    a, b, c, d, e := uuid[..8], uuid[9..13], uuid[14..18], uuid[19..23], uuid[24..];
    assert uuid == a + "-" + b + "-" + c + "-" + d + "-" + e;
    var id := a + b + c + d + e;
    forall i | 0 <= i < 32 ensures IsLowerHex(id[i]) {
      if i < 8 { assert id[i] == uuid[i]; }
      else if i < 12 { assert id[i] == uuid[i + 1]; }
      else if i < 16 { assert id[i] == uuid[i + 2]; }
      else if i < 20 { assert id[i] == uuid[i + 3]; }
      else { assert id[i] == uuid[i + 4]; }
    }
  }

  /**
   * The message id of a UUID is its 32 hexadecimal digits, dashes dropped
   * and order kept: lower case, with the version digit `4` at index 12.
   */
  lemma MessageIdOfUuid(uuid: string)
    requires Fits(uuid, UuidV4Shape)
    ensures MessageId(uuid) == uuid[..8] + uuid[9..13] + uuid[14..18] + uuid[19..23] + uuid[24..]
    ensures |MessageId(uuid)| == 32 && MessageId(uuid)[12] == '4' && '-' !in MessageId(uuid)
    ensures forall i :: 0 <= i < 32 ==> IsLowerHex(MessageId(uuid)[i])
  {
    var a, b, c, d, e := UuidGroups(uuid);
    var id := a + b + c + d + e;
    assert '-' !in a && '-' !in b && '-' !in c && '-' !in d && '-' !in e by {
      forall i | 0 <= i < 32 ensures id[i] != '-' {
        assert IsLowerHex(id[i]);
      }
      assert forall i :: 0 <= i < 8 ==> a[i] == id[i];
      assert forall i :: 0 <= i < 4 ==> b[i] == id[i + 8] && c[i] == id[i + 12] && d[i] == id[i + 16];
      assert forall i :: 0 <= i < 12 ==> e[i] == id[i + 20];
    }
    RemoveDashesBetween(a, b, c, d, e);
    assert id[12] == c[0];
  }

  /**
   * An ISO instant holds `T` at 10 and `Z` at 23 and neither letter
   * elsewhere; its other characters fit the timestamp shape.
   */
  lemma IsoLayout(iso: string)
    requires Fits(iso, IsoInstantShape)
    ensures |iso| == 24 && iso[10] == 'T' && iso[23] == 'Z'
    ensures forall i :: 0 <= i < 23 && i != 10 ==> iso[i] != 'T' && iso[i] != 'Z' && FitsChar(iso[i], TimestampShape[i])
  {
    var shape := IsoInstantShape;
    assert FitsChar(iso[10], shape[10]) && FitsChar(iso[23], shape[23]);
    forall i | 0 <= i < 23 && i != 10
      ensures iso[i] != 'T' && iso[i] != 'Z' && FitsChar(iso[i], TimestampShape[i])
    {
      assert FitsChar(iso[i], shape[i]);
      assert shape[i] == TimestampShape[i];
    }
  }

  /**
   * For a clock reading in ISO form `YYYY-MM-DDTHH:MM:SS.sssZ`, the
   * timestamp is `YYYY-MM-DD HH:MM:SS.sss`: the `T` becomes a space, the
   * `Z` is dropped, and nothing else changes.
   */
  lemma TimestampOfIso(iso: string)
    requires Fits(iso, IsoInstantShape)
    ensures Timestamp(iso) == iso[..10] + " " + iso[11..23]
    ensures Fits(Timestamp(iso), TimestampShape)
    ensures |Timestamp(iso)| == 23 && 'T' !in Timestamp(iso) && 'Z' !in Timestamp(iso)
  {
    IsoLayout(iso);
    TimestampText(iso);
    TimestampShapeOf(iso);
  }

  /** The ISO instant with its `T` made a space and its `Z` dropped fits the timestamp shape. */
  lemma TimestampShapeOf(iso: string)
    requires |iso| == 24
    requires forall i :: 0 <= i < 23 && i != 10 ==> iso[i] != 'T' && iso[i] != 'Z' && FitsChar(iso[i], TimestampShape[i])
    ensures var r := iso[..10] + " " + iso[11..23];
            Fits(r, TimestampShape) && 'T' !in r && 'Z' !in r
  {
    var r := iso[..10] + " " + iso[11..23];
    forall i | 0 <= i < 23 ensures FitsChar(r[i], TimestampShape[i]) && r[i] != 'T' && r[i] != 'Z' {
      if i != 10 { assert r[i] == iso[i]; }
    }
  }

  /** The two replacements of the timestamp, on an ISO instant. */
  lemma TimestampText(iso: string)
    requires |iso| == 24 && iso[10] == 'T' && iso[23] == 'Z'
    requires forall i :: 0 <= i < 23 && i != 10 ==> iso[i] != 'T' && iso[i] != 'Z'
    ensures Timestamp(iso) == iso[..10] + " " + iso[11..23]
  {
    ReplaceFirstChar(iso, 'T', " ", 10);
    var t := iso[..10] + " " + iso[11..];
    assert |t| == 24 && t[23] == 'Z';
    forall j | 0 <= j < 23 ensures t[j] != 'Z' {
      if j != 10 { assert t[j] == iso[j]; }
    }
    ReplaceFirstChar(t, 'Z', "", 23);
    assert t[..23] == iso[..10] + " " + iso[11..23];
  }

  /**
   * An empty or absent `selectedFile` or `content` gets the 400 response
   * and nothing is published; a complete form never gets it.
   */
  lemma IncompleteFormRejected(env: Environment, form: SubmitForm, uuid: string, isoNow: string, broker: BrokerOutcome)
    ensures var sub := HandleSubmit(env, form, uuid, isoNow, broker);
            && (sub.response.BadRequest? <==> MissingFields(form))
            && (MissingFields(form) ==> sub.published == [] && sub.response == BadRequest(400, "Missing required fields"))
  {
  }

  /**
   * At most one message is published: the envelope of the submitted text,
   * on the intake topic, keyed by its own id, with the reserved fields at
   * their defaults. It is published exactly when the form is complete and
   * the producer got past `send`.
   */
  lemma PublishedEnvelope(env: Environment, form: SubmitForm, uuid: string, isoNow: string, broker: BrokerOutcome)
    ensures var sub := HandleSubmit(env, form, uuid, isoNow, broker);
            && |sub.published| <= 1
            && (sub.published != [] <==> !MissingFields(form) && (broker.Acknowledged? || broker.DisconnectFailed?))
            && forall r :: r in sub.published ==>
                 && r.topic == IntakeTopic(env)
                 && r.key == r.value.id == MessageId(uuid)
                 && r.value.content == form.content.value
                 && r.value.timestamp == Timestamp(isoNow)
                 && ReservedFieldsEmpty(r.value)
  {
  }

  /**
   * The handler redirects exactly when the form is complete and the producer
   * connected, sent and disconnected; any producer failure gives the 500
   * page carrying the failure's message and the broker settings, never the
   * SASL credentials.
   */
  lemma RedirectOnlyOnSuccess(env: Environment, form: SubmitForm, uuid: string, isoNow: string, broker: BrokerOutcome)
    ensures var sub := HandleSubmit(env, form, uuid, isoNow, broker);
            && (sub.response.Redirect? <==> !MissingFields(form) && broker.Acknowledged?)
            && (!MissingFields(form) && !broker.Acknowledged? ==>
                  sub.response == ErrorPage(500, broker.message, Broker(env), IntakeTopic(env), env.securityProtocol))
  {
  }

  /**
   * The confirmation URL carries the message id as its `id` parameter (the
   * same value that keys the Kafka message), and its `file` parameter
   * decodes back to the selected file.
   */
  lemma RedirectCarriesId(env: Environment, form: SubmitForm, uuid: string, isoNow: string)
    requires Fits(uuid, UuidV4Shape) && !MissingFields(form)
    ensures var sub := HandleSubmit(env, form, uuid, isoNow, Acknowledged);
            && sub.response.Redirect?
            && QueryParam(sub.response.location, "id") == Some(sub.published[0].key)
            && QueryParam(sub.response.location, "file").Some?
            && DecodeURIComponent(QueryParam(sub.response.location, "file").value) == Some(form.selectedFile.value)
  {
    var id := MessageId(uuid);
    MessageIdOfUuid(uuid);
    var file := form.selectedFile.value;
    var enc := EncodeURIComponent(file);
    SuccessQuery(id, enc);
    DecodeEncode(file);
  }

  /** Reading back the two parameters of the confirmation URL. */
  lemma SuccessQuery(id: string, enc: string)
    requires '&' !in id && '&' !in enc
    ensures QueryParam("/success?id=" + id + "&file=" + enc, "id") == Some(id)
    ensures QueryParam("/success?id=" + id + "&file=" + enc, "file") == Some(enc)
  {
    var url := "/success?id=" + id + "&file=" + enc;
    var first := "id=" + id;
    var second := "file=" + enc;
    assert url[8] == '?' && forall j :: 0 <= j < 8 ==> url[j] != '?';
    IndexOfChar(url, '?', 8);
    assert QueryOf(url) == first + ['&'] + second;
    assert '&' !in first && '&' !in second;
    SplitFirst(first, '&', second);
    SplitNone(second, '&');
    var pairs := Split(QueryOf(url), '&');
    assert pairs == [first, second];
    assert first[..3] == "id=";
    assert !(5 <= |first| && first[..5] == "file=") by { assert first[0] == 'i'; }
    assert ParamValue(pairs, "file") == ParamValue([second], "file");
    assert second[..5] == "file=";
  }

  /**
   * End to end, for a catalog file name made of unreserved characters (as
   * `billing-inquiry.txt` is): when the producer succeeds, exactly one
   * envelope of the submitted text is published, keyed by its 32-character
   * id, and the confirmation URL holds that id and the file name unchanged.
   */
  lemma PlainFileSubmission(env: Environment, form: SubmitForm, uuid: string, isoNow: string)
    requires Fits(uuid, UuidV4Shape) && !MissingFields(form)
    requires forall k :: 0 <= k < |form.selectedFile.value| ==> Unreserved(form.selectedFile.value[k])
    ensures var sub := HandleSubmit(env, form, uuid, isoNow, Acknowledged);
            var id := MessageId(uuid);
            && |id| == 32
            && sub.published == [ProducerRecord(IntakeTopic(env), id, NewEnvelope(id, form.content.value, Timestamp(isoNow)))]
            && sub.response == Redirect("/success?id=" + id + "&file=" + form.selectedFile.value)
  {
    MessageIdOfUuid(uuid);
  }
}
