/**
 * The request flow of php/contact.php (lines 17-24 and 43-88): refuse
 * anything but POST, sanitize, validate, screen for spam, then build the
 * record, send the notification and store the submission.
 *
 * Everything the handler reads from its environment is a parameter: the
 * request method and body, the two uniqid() values, the clock, the client's
 * address and user agent, the result of mail(), the storage directory's
 * files and whether each write reaches the disk.
 */
module ContactHandler {
  import opened Strings
  import opened Sanitizer
  import opened Validator
  import opened SpamFilter
  import opened SubmissionStore

  const NotAllowedMessage := "Method not allowed. Only POST requests are accepted."
  const SpamMessage := "Spam detected. Please try again later."
  const ThanksMessage := "Thank you for your message! We will get back to you soon."

  /** The JSON body sent back, with its HTTP status. */
  datatype Response =
    | Failure(status: nat, message: string)
    | Success(message: string, submissionId: string, emailSent: bool, stored: bool)

  /** The environment of one request. */
  datatype Request = Request(
    httpMethod: string,
    body: Fields,
    remoteAddr: Option<string>,
    userAgent: Option<string>,
    clock: DateTime)

  /** The outcome of the handler as a function of its inputs. */
  function Outcome(req: Request, files: Files, isEmail: string -> bool,
                   processId: string, storeId: string, mailSent: bool,
                   logDiskOk: bool, backupDiskOk: bool): (Response, Files)
  {
    var data := Sanitized(req.body);
    var vs := Violations(data, SiteConfig, isEmail);
    if req.httpMethod != "POST" then (Failure(405, NotAllowedMessage), files)
    else if vs != [] then (Failure(400, ResultMessage(vs)), files)
    else if DetectSpam(data) then (Failure(400, SpamMessage), files)
    else
      var effect := StoreEffect(files, "contacts/", data, storeId, req.clock,
                                req.remoteAddr, req.userAgent, logDiskOk, backupDiskOk);
      (Success(ThanksMessage, processId, mailSent, StoredFlag(effect.1)), effect.0)
  }

  /**
   * The handler. `processId` and `storeId` are the two uniqid() results
   * (processSubmission and storeSubmission each call it); `mailSent` is what
   * mail() returned.
   */
  method HandleRequest(req: Request, files: Files, isEmail: string -> bool,
                       processId: string, storeId: string, mailSent: bool,
                       logDiskOk: bool, backupDiskOk: bool)
    returns (response: Response, next: Files)
    ensures (response, next) == Outcome(req, files, isEmail, processId, storeId, mailSent, logDiskOk, backupDiskOk)
  {
    if req.httpMethod != "POST" {
      return Failure(405, NotAllowedMessage), files;
    }
    var data := SanitizeInput(req.body);
    var valid, message := ValidateInput(data, SiteConfig, isEmail);
    if !valid {
      return Failure(400, message), files;
    }
    if DetectSpam(data) {
      return Failure(400, SpamMessage), files;
    }
    var submission := ProcessSubmission(data, processId, req.clock, req.remoteAddr, req.userAgent);
    var stored;
    next, stored := StoreSubmission(files, "contacts/", data, storeId, req.clock,
                                    req.remoteAddr, req.userAgent, logDiskOk, backupDiskOk);
    response := Success(ThanksMessage, submission.id, mailSent, stored);
  }

  /**
   * A request is answered with success exactly when it is a POST whose
   * sanitized body breaks no validation rule and is not spam.
   */
  lemma AcceptedIffValidAndClean(req: Request, files: Files, isEmail: string -> bool,
                                 processId: string, storeId: string, mailSent: bool,
                                 logDiskOk: bool, backupDiskOk: bool)
    ensures Outcome(req, files, isEmail, processId, storeId, mailSent, logDiskOk, backupDiskOk).0.Success? <==>
              && req.httpMethod == "POST"
              && Violations(Sanitized(req.body), SiteConfig, isEmail) == []
              && !DetectSpam(Sanitized(req.body))
  {
  }

  /**
   * The three refusals and their status codes, in the order the handler
   * checks them; a refused request changes no file, and an accepted one is
   * answered with the first uniqid() value and mail()'s result.
   */
  lemma RefusalsLeaveFilesAlone(req: Request, files: Files, isEmail: string -> bool,
                                processId: string, storeId: string, mailSent: bool,
                                logDiskOk: bool, backupDiskOk: bool)
    ensures var r := Outcome(req, files, isEmail, processId, storeId, mailSent, logDiskOk, backupDiskOk);
            var vs := Violations(Sanitized(req.body), SiteConfig, isEmail);
            && (req.httpMethod != "POST" ==> r.0 == Failure(405, NotAllowedMessage))
            && (req.httpMethod == "POST" && vs != [] ==> r.0 == Failure(400, ResultMessage(vs)))
            && (req.httpMethod == "POST" && vs == [] && DetectSpam(Sanitized(req.body)) ==>
                  r.0 == Failure(400, SpamMessage))
            && (!r.0.Success? ==> r.1 == files)
            && (r.0.Success? ==> r.0.message == ThanksMessage && r.0.submissionId == processId && r.0.emailSent == mailSent)
  {
  }

  /**
   * Every field value the handler stores is sanitized text, so valid UTF-8.
   * When the field names, address, user agent, id and clock text are valid
   * UTF-8 and the month's log encodes, a write the disk accepts always keeps
   * the record.
   */
  lemma SanitizedSubmissionIsStored(files: Files, dir: string, body: Fields, id: string, t: DateTime,
                                    remoteAddr: Option<string>, userAgent: Option<string>, backupDiskOk: bool)
    requires forall k :: k in body ==> ValidUtf8(k)
    requires ValidUtf8(id) && ValidUtf8(OrUnknown(remoteAddr)) && ValidUtf8(OrUnknown(userAgent))
    requires ValidUtf8(IsoStamp(t))
    requires AllEncodable(Previous(files, MonthlyLogName(dir, t)))
    ensures StoredFlag(StoreEffect(files, dir, Sanitized(body), id, t, remoteAddr, userAgent, true, backupDiskOk).1)
  {
    var data := Sanitized(body);
    var record := NewSubmission(data, id, IsoStamp(t), remoteAddr, userAgent);
    forall k | k in data
      ensures ValidUtf8(k) && ValidUtf8(data[k])
    {
      SanitizedIsValidUtf8(body[k]);
    }
    assert Encodable(record);
    StoredIffEncodable(files, dir, data, id, t, remoteAddr, userAgent, true, backupDiskOk);
  }
}
