/**
 `openComposeWithData`: reads the form, builds the recipient and attachment
 lists, and pushes them into Outlook through one of two host capabilities,
 issuing host calls one after another and stopping at the first failure.

 The host is abstract: what the mailbox offers is a `Host` value, and the
 result of every fallible call is taken, in order, from a sequence of
 outcomes. The model returns the calls issued (the trace) and the final
 status the task pane reports.
 */
module Compose {
  import opened Wrappers
  import opened Seqs
  import opened Recipients
  import opened DataUri
  import opened Text
  import opened Attachments

  // ---------------------------------------------------------------------------
  // the host
  // ---------------------------------------------------------------------------

  /**
   The current mail item as far as the dispatch cares: whether `itemType` and
   `saveAsync` are truthy, which field setters exist, and which attachment
   methods exist.
   */
  datatype Item = Item(
    hasItemType: bool,
    hasSaveAsync: bool,
    canSetTo: bool,
    canSetCc: bool,
    canSetBcc: bool,
    canSetSubject: bool,
    canSetBody: bool,
    canAddFile: bool,
    canAddBase64: bool)

  /** `Office.context.mailbox`: whether `displayNewMessageForm` is a function, and the current item. */
  datatype Mailbox = Mailbox(hasDisplayNewMessageForm: bool, item: Option<Item>)

  /** `Office.context`, reduced to its mailbox (absent outside Outlook). */
  datatype Host = Host(mailbox: Option<Mailbox>)

  /** The three ways the dispatch can go. */
  datatype Capability =
    | NewWindow(mailbox: Mailbox)
    | ComposeItem(item: Item)
    | Unsupported

  /** The first test (line 88) wins; the compose test (line 146) needs a truthy `itemType` and `saveAsync`. */
  function DetectCapability(host: Host): (cap: Capability) {
    match host.mailbox
    case Some(mbox) =>
      if mbox.hasDisplayNewMessageForm then NewWindow(mbox)
      else if mbox.item.Some? && mbox.item.value.hasItemType && mbox.item.value.hasSaveAsync then ComposeItem(mbox.item.value)
      else Unsupported
    case None => Unsupported
  }

  // ---------------------------------------------------------------------------
  // host calls and their outcomes
  // ---------------------------------------------------------------------------

  /** The `{ displayName, emailAddress }` records the recipient setters receive. */
  datatype EmailAddress = EmailAddress(displayName: string, emailAddress: string)

  /** The `{ type: "file", name, url, isInline }` records `displayNewMessageForm` receives. */
  datatype UrlFile = UrlFile(name: string, url: string, isInline: bool)

  datatype HostCall =
    | DisplayNewMessageForm(to: seq<string>, cc: seq<string>, bcc: seq<string>, subject: string, htmlBody: string, attachments: seq<UrlFile>)
    | Wait(ms: nat)
    | SetTo(recipients: seq<EmailAddress>)
    | SetCc(recipients: seq<EmailAddress>)
    | SetBcc(recipients: seq<EmailAddress>)
    | SetSubject(subject: string)
    | SetBodyHtml(html: string)
    | AddFileAttachment(url: string, name: string, isInline: bool)
    | AddBase64Attachment(base64: string, name: string, isInline: bool)

  /** What a host callback reports: `Succeeded`, or the error it rejects with. */
  datatype CallResult = Succeeded | Failed(error: string)

  /** The pause before base64 attachments are added to a freshly opened window. */
  const NewWindowDelay: nat := 700

  /** The error raised when an attachment method is called on a missing item or is not a function. */
  const MissingMethod: string := "TypeError"

  /** The outcome the host gives the `i`-th fallible call; calls past the end of the list succeed. */
  function OutcomeAt(outcomes: seq<CallResult>, i: nat): (r: CallResult) {
    if i < |outcomes| then outcomes[i] else Succeeded
  }

  /** Whether `call` reaches the host at all: the attachment methods are called without checking that they exist. */
  predicate Reaches(item: Option<Item>, call: HostCall) {
    match call
    case AddFileAttachment(_, _, _) => item.Some? && item.value.canAddFile
    case AddBase64Attachment(_, _, _) => item.Some? && item.value.canAddBase64
    case _ => true
  }

  /** The result of attempting `call` as the `i`-th fallible call. */
  function ResultOf(item: Option<Item>, call: HostCall, outcomes: seq<CallResult>, i: nat): (r: CallResult) {
    if Reaches(item, call) then OutcomeAt(outcomes, i) else Failed(MissingMethod)
  }

  /** The calls attempted by a run of awaited calls, and the error that stopped it, if any. */
  datatype Run = Run(issued: seq<HostCall>, failure: Option<string>)

  /**
   A chain of `await`s inside one `try`: each call is attempted after the
   previous one succeeded, and the first failure ends the chain. The `k`-th
   call takes its outcome at index `start + k`.
   */
  function RunSequential(item: Option<Item>, calls: seq<HostCall>, outcomes: seq<CallResult>, start: nat): (run: Run)
    ensures |run.issued| <= |calls|
    decreases |calls|
  {
    if |calls| == 0 then Run([], None)
    else
      match ResultOf(item, calls[0], outcomes, start)
      case Failed(e) => Run([calls[0]], Some(e))
      case Succeeded =>
        var rest := RunSequential(item, calls[1..], outcomes, start + 1);
        Run([calls[0]] + rest.issued, rest.failure)
  }

  /** Every call in `calls[..n]` succeeded. */
  predicate AllSucceed(item: Option<Item>, calls: seq<HostCall>, outcomes: seq<CallResult>, start: nat, n: nat)
    requires n <= |calls|
  {
    forall k :: 0 <= k < n ==> ResultOf(item, calls[k], outcomes, start + k).Succeeded?
  }

  /**
   A run attempts a prefix of the calls, in order. It ends without error
   exactly when every call succeeds, having then attempted all of them;
   otherwise the last call attempted is the first that failed, with that
   error, and nothing after it is attempted or undone.
   */
  lemma RunSequentialSpec(item: Option<Item>, calls: seq<HostCall>, outcomes: seq<CallResult>, start: nat)
    ensures var run := RunSequential(item, calls, outcomes, start);
            && run.issued == calls[..|run.issued|]
            && (run.failure.None? <==> AllSucceed(item, calls, outcomes, start, |calls|))
            && (run.failure.None? ==> run.issued == calls)
            && (run.failure.Some? ==>
                  && |run.issued| > 0
                  && AllSucceed(item, calls, outcomes, start, |run.issued| - 1)
                  && ResultOf(item, calls[|run.issued| - 1], outcomes, start + |run.issued| - 1) == Failed(run.failure.value))
  {
    RunIsPrefix(item, calls, outcomes, start);
    RunSucceedsExactly(item, calls, outcomes, start);
    RunStopsAtFirstFailure(item, calls, outcomes, start);
  }

  lemma {:induction false} RunIsPrefix(item: Option<Item>, calls: seq<HostCall>, outcomes: seq<CallResult>, start: nat)
    ensures var run := RunSequential(item, calls, outcomes, start);
            && run.issued == calls[..|run.issued|]
            && (run.failure.None? ==> run.issued == calls)
            && (run.failure.Some? ==> |run.issued| > 0)
    decreases |calls|
  {
    if |calls| > 0 {
      RunIsPrefix(item, calls[1..], outcomes, start + 1);
      var rest := RunSequential(item, calls[1..], outcomes, start + 1);
      if ResultOf(item, calls[0], outcomes, start).Succeeded? {
        assert calls[1..][..|rest.issued|] == calls[1..|rest.issued| + 1];
        assert [calls[0]] + calls[1..|rest.issued| + 1] == calls[..|rest.issued| + 1];
        assert [calls[0]] + calls[1..] == calls;
      }
    }
  }

  lemma {:induction false} RunSucceedsExactly(item: Option<Item>, calls: seq<HostCall>, outcomes: seq<CallResult>, start: nat)
    ensures RunSequential(item, calls, outcomes, start).failure.None? <==> AllSucceed(item, calls, outcomes, start, |calls|)
    decreases |calls|
  {
    if |calls| > 0 {
      RunSucceedsExactly(item, calls[1..], outcomes, start + 1);
      if ResultOf(item, calls[0], outcomes, start).Succeeded? {
        ShiftedSuccess(item, calls, outcomes, start, |calls| - 1);
      }
    }
  }

  lemma {:induction false} RunStopsAtFirstFailure(item: Option<Item>, calls: seq<HostCall>, outcomes: seq<CallResult>, start: nat)
    ensures var run := RunSequential(item, calls, outcomes, start);
            run.failure.Some? ==>
              && 0 < |run.issued| <= |calls|
              && AllSucceed(item, calls, outcomes, start, |run.issued| - 1)
              && ResultOf(item, calls[|run.issued| - 1], outcomes, start + |run.issued| - 1) == Failed(run.failure.value)
    decreases |calls|
  {
    if |calls| > 0 {
      RunStopsAtFirstFailure(item, calls[1..], outcomes, start + 1);
      var rest := RunSequential(item, calls[1..], outcomes, start + 1);
      if ResultOf(item, calls[0], outcomes, start).Succeeded? && rest.failure.Some? {
        ShiftedSuccess(item, calls, outcomes, start, |rest.issued| - 1);
        assert calls[1..][|rest.issued| - 1] == calls[|rest.issued|];
      }
    }
  }

  /** Success of the first `n` calls of the tail, shifted by one, is success of calls `1..n` of the whole list. */
  lemma ShiftedSuccess(item: Option<Item>, calls: seq<HostCall>, outcomes: seq<CallResult>, start: nat, n: nat)
    requires 0 < |calls| && n < |calls|
    requires ResultOf(item, calls[0], outcomes, start).Succeeded?
    ensures AllSucceed(item, calls[1..], outcomes, start + 1, n) <==> AllSucceed(item, calls, outcomes, start, n + 1)
  {
    if AllSucceed(item, calls[1..], outcomes, start + 1, n) {
      forall k | 0 <= k < n + 1 ensures ResultOf(item, calls[k], outcomes, start + k).Succeeded? {
        if k > 0 {
          assert calls[k] == calls[1..][k - 1];
        }
      }
    }
    if AllSucceed(item, calls, outcomes, start, n + 1) {
      forall k | 0 <= k < n ensures ResultOf(item, calls[1..][k], outcomes, start + 1 + k).Succeeded? {
        assert calls[1..][k] == calls[k + 1];
      }
    }
  }

  // ---------------------------------------------------------------------------
  // the request read from the form
  // ---------------------------------------------------------------------------

  /**
   The form fields: `None` where the element is missing, which the task pane
   reads as the empty string.
   */
  datatype Form = Form(
    to: Option<string>,
    cc: Option<string>,
    bcc: Option<string>,
    subject: Option<string>,
    body: Option<string>,
    attachments: Option<string>)

  /** Everything `openComposeWithData` computes before it looks at the host. */
  datatype Request = Request(
    to: seq<string>,
    cc: seq<string>,
    bcc: seq<string>,
    subject: string,
    htmlBody: string,
    attachments: seq<Attachment>)

  function BuildRequest(form: Form, lib: UrlLib): (req: Request) {
    Request(
      ParseRecipients(form.to.GetOr("")),
      ParseRecipients(form.cc.GetOr("")),
      ParseRecipients(form.bcc.GetOr("")),
      form.subject.GetOr(""),
      form.body.GetOr(""),
      AttachmentsOf(form.attachments.GetOr(""), lib))
  }

  /** The record `displayNewMessageForm` receives for a url attachment, or `None` for a base64 one. */
  function AsUrlFile(a: Attachment): (r: Option<UrlFile>) {
    if a.kind == Url then Some(UrlFile(a.name, a.value, a.isInline)) else None
  }

  function AsBase64(a: Attachment): (r: Option<Attachment>) {
    if a.kind == Base64 then Some(a) else None
  }

  /** `urlAttachments`: the url entries, as file records, in order. */
  function UrlFiles(atts: seq<Attachment>): (files: seq<UrlFile>) {
    FilterMap(AsUrlFile, atts)
  }

  /** `base64Attachments`: the base64 entries, in order. */
  function Base64Entries(atts: seq<Attachment>): (entries: seq<Attachment>) {
    FilterMap(AsBase64, atts)
  }

  /** Every attachment goes to exactly one of the two lists. */
  lemma {:induction false} AttachmentPartition(atts: seq<Attachment>)
    ensures |UrlFiles(atts)| + |Base64Entries(atts)| == |atts|
  {
    if |atts| > 0 {
      AttachmentPartition(atts[1..]);
      FilterMapStep(AsUrlFile, atts);
      FilterMapStep(AsBase64, atts);
    }
  }

  /**
   The url list keeps, in order, exactly the url entries: its `k`-th record
   carries the name, url and inline flag of the `k`-th url entry, and every url
   entry is represented.
   */
  lemma UrlFilesAreUrlEntries(atts: seq<Attachment>) returns (idx: seq<nat>)
    ensures var files := UrlFiles(atts);
            && |idx| == |files|
            && (forall k :: 0 <= k < |idx| ==>
                  && idx[k] < |atts|
                  && atts[idx[k]].kind == Url
                  && files[k] == UrlFile(atts[idx[k]].name, atts[idx[k]].value, atts[idx[k]].isInline))
            && (forall k, m :: 0 <= k < m < |idx| ==> idx[k] < idx[m])
            && (forall i :: 0 <= i < |atts| ==> (i in idx <==> atts[i].kind == Url))
  {
    idx := FilterMapEmbedding(AsUrlFile, atts);
  }

  /** The base64 list keeps, in order, exactly the base64 entries. */
  lemma Base64EntriesAreBase64Entries(atts: seq<Attachment>) returns (idx: seq<nat>)
    ensures var entries := Base64Entries(atts);
            && |idx| == |entries|
            && (forall k :: 0 <= k < |idx| ==> idx[k] < |atts| && atts[idx[k]].kind == Base64 && entries[k] == atts[idx[k]])
            && (forall k, m :: 0 <= k < m < |idx| ==> idx[k] < idx[m])
            && (forall i :: 0 <= i < |atts| ==> (i in idx <==> atts[i].kind == Base64))
  {
    idx := FilterMapEmbedding(AsBase64, atts);
  }

  // ---------------------------------------------------------------------------
  // the calls each path plans
  // ---------------------------------------------------------------------------

  /** Each address becomes a recipient whose display name is the address itself. */
  function AsEmailAddresses(emails: seq<string>): (r: seq<EmailAddress>)
    ensures |r| == |emails|
  {
    if |emails| == 0 then [] else [EmailAddress(emails[0], emails[0])] + AsEmailAddresses(emails[1..])
  }

  /** The base64 adds, one per entry and in order, each with the payload after the marker. */
  function Base64Calls(entries: seq<Attachment>): (calls: seq<HostCall>)
    ensures |calls| == |entries|
    ensures forall k :: 0 <= k < |calls| ==>
      calls[k] == AddBase64Attachment(SplitDataUri(entries[k].value).base64, entries[k].name, entries[k].isInline)
  {
    if |entries| == 0 then []
    else
      var a := entries[0];
      [AddBase64Attachment(SplitDataUri(a.value).base64, a.name, a.isInline)] + Base64Calls(entries[1..])
  }

  /** The url adds of the compose path, one per url record and in order. */
  function UrlCalls(files: seq<UrlFile>): (calls: seq<HostCall>)
    ensures |calls| == |files|
    ensures forall k :: 0 <= k < |calls| ==> calls[k] == AddFileAttachment(files[k].url, files[k].name, files[k].isInline)
  {
    if |files| == 0 then []
    else [AddFileAttachment(files[0].url, files[0].name, files[0].isInline)] + UrlCalls(files[1..])
  }

  /** The field setters of the compose path: each one only for a non-empty value and an existing setter. */
  function FieldCalls(req: Request, item: Item): (calls: seq<HostCall>) {
    Setters(
      |req.to| > 0 && item.canSetTo, |req.cc| > 0 && item.canSetCc, |req.bcc| > 0 && item.canSetBcc,
      req.subject != "" && item.canSetSubject, req.htmlBody != "" && item.canSetBody,
      AsEmailAddresses(req.to), AsEmailAddresses(req.cc), AsEmailAddresses(req.bcc), req.subject, req.htmlBody)
  }

  /** The five setters in source order, each present when its guard holds. */
  function Setters(
    onTo: bool, onCc: bool, onBcc: bool, onSubject: bool, onBody: bool,
    to: seq<EmailAddress>, cc: seq<EmailAddress>, bcc: seq<EmailAddress>, subject: string, html: string): (calls: seq<HostCall>)
  {
    When(onTo, SetTo(to)) + When(onCc, SetCc(cc)) + When(onBcc, SetBcc(bcc))
    + When(onSubject, SetSubject(subject)) + When(onBody, SetBodyHtml(html))
  }

  /** A call guarded by an `if`. */
  function When(cond: bool, call: HostCall): (calls: seq<HostCall>) {
    if cond then [call] else []
  }

  /** Everything the compose path would do if every call succeeded: fields, then url adds, then base64 adds. */
  function ComposePlan(req: Request, item: Item): (plan: seq<HostCall>) {
    FieldCalls(req, item) + UrlCalls(UrlFiles(req.attachments)) + Base64Calls(Base64Entries(req.attachments))
  }

  // ---------------------------------------------------------------------------
  // the dispatch
  // ---------------------------------------------------------------------------

  /** The status line the task pane ends with. */
  datatype Report =
    | NewWindowOpened
    | NewWindowWithAttachments
    | Base64AttachFailed(error: string)
    | NewWindowFailed(error: string)
    | ComposeApplied
    | ComposeFailed(error: string)
    | NotInCompose

  datatype Dispatch = Dispatch(trace: seq<HostCall>, report: Report)

  /** The call that opens the new window: the parsed fields and exactly the url attachments. */
  function DisplayCall(req: Request): (call: HostCall) {
    DisplayNewMessageForm(req.to, req.cc, req.bcc, req.subject, req.htmlBody, UrlFiles(req.attachments))
  }

  /**
   The new-window path: open the window (a call that can throw); stop there
   when there is nothing to add in base64, otherwise wait and add the base64
   entries to the current item one at a time.
   */
  function NewWindowPath(req: Request, mbox: Mailbox, outcomes: seq<CallResult>): (d: Dispatch) {
    var display := DisplayCall(req);
    match OutcomeAt(outcomes, 0)
    case Failed(e) => Dispatch([display], NewWindowFailed(e))
    case Succeeded =>
      var entries := Base64Entries(req.attachments);
      if |entries| == 0 then Dispatch([display], NewWindowOpened)
      else
        var run := RunSequential(mbox.item, Base64Calls(entries), outcomes, 1);
        Dispatch(
          [display, Wait(NewWindowDelay)] + run.issued,
          match run.failure
          case Some(e) => Base64AttachFailed(e)
          case None => NewWindowWithAttachments)
  }

  /** The compose-item path: the planned calls, awaited one by one inside a single `try`. */
  function ComposePath(req: Request, item: Item, outcomes: seq<CallResult>): (d: Dispatch) {
    ComposeRun(item, ComposePlan(req, item), outcomes)
  }

  function ComposeRun(item: Item, plan: seq<HostCall>, outcomes: seq<CallResult>): (d: Dispatch) {
    var run := RunSequential(Some(item), plan, outcomes, 0);
    Dispatch(
      run.issued,
      match run.failure
      case Some(e) => ComposeFailed(e)
      case None => ComposeApplied)
  }

  function DispatchRequest(req: Request, host: Host, outcomes: seq<CallResult>): (d: Dispatch) {
    match DetectCapability(host)
    case NewWindow(mbox) => NewWindowPath(req, mbox, outcomes)
    case ComposeItem(item) => ComposePath(req, item, outcomes)
    case Unsupported => Dispatch([], NotInCompose)
  }

  /** `openComposeWithData`. */
  function OpenComposeWithData(form: Form, lib: UrlLib, host: Host, outcomes: seq<CallResult>): (d: Dispatch) {
    DispatchRequest(BuildRequest(form, lib), host, outcomes)
  }

  // ---------------------------------------------------------------------------
  // properties of the dispatch
  // ---------------------------------------------------------------------------

  /** The stage of the compose path a call belongs to, in the order the source awaits them. */
  function Phase(call: HostCall): (p: nat) {
    match call
    case SetTo(_) => 0
    case SetCc(_) => 1
    case SetBcc(_) => 2
    case SetSubject(_) => 3
    case SetBodyHtml(_) => 4
    case AddFileAttachment(_, _, _) => 5
    case AddBase64Attachment(_, _, _) => 6
    case DisplayNewMessageForm(_, _, _, _, _, _) => 7
    case Wait(_) => 7
  }

  /** The phases of `calls` start at `lo` or later and never go down. */
  predicate OrderedFrom(calls: seq<HostCall>, lo: nat) {
    |calls| == 0 || (lo <= Phase(calls[0]) && OrderedFrom(calls[1..], Phase(calls[0])))
  }

  /** No call of `calls` is later than phase `hi`. */
  predicate AtMost(calls: seq<HostCall>, hi: nat) {
    forall k :: 0 <= k < |calls| ==> Phase(calls[k]) <= hi
  }

  lemma {:induction false} OrderedFromWeaken(calls: seq<HostCall>, lo: nat, lower: nat)
    requires lower <= lo && OrderedFrom(calls, lo)
    ensures OrderedFrom(calls, lower)
  {
  }

  lemma {:induction false} OrderedAppend(a: seq<HostCall>, b: seq<HostCall>, lo: nat, mid: nat)
    requires lo <= mid
    requires OrderedFrom(a, lo) && AtMost(a, mid) && OrderedFrom(b, mid)
    ensures OrderedFrom(a + b, lo)
    decreases |a|
  {
    if |a| == 0 {
      assert a + b == b;
      OrderedFromWeaken(b, mid, lo);
    } else {
      assert (a + b)[0] == a[0];
      assert (a + b)[1..] == a[1..] + b;
      assert AtMost(a[1..], mid) by {
        forall k | 0 <= k < |a[1..]| ensures Phase(a[1..][k]) <= mid {
          assert a[1..][k] == a[k + 1];
        }
      }
      OrderedAppend(a[1..], b, Phase(a[0]), mid);
    }
  }

  lemma AtMostAppend(a: seq<HostCall>, b: seq<HostCall>, hi: nat)
    requires AtMost(a, hi) && AtMost(b, hi)
    ensures AtMost(a + b, hi)
  {
    forall k | 0 <= k < |a + b| ensures Phase((a + b)[k]) <= hi {
      if k < |a| { assert (a + b)[k] == a[k]; } else { assert (a + b)[k] == b[k - |a|]; }
    }
  }

  /** A sequence ordered from `lo` has every phase at least `lo` and no pair out of order. */
  lemma {:induction false} OrderedPairwise(calls: seq<HostCall>, lo: nat)
    requires OrderedFrom(calls, lo)
    ensures forall k :: 0 <= k < |calls| ==> lo <= Phase(calls[k])
    ensures forall i, j :: 0 <= i < j < |calls| ==> Phase(calls[i]) <= Phase(calls[j])
    decreases |calls|
  {
    if |calls| > 0 {
      var rest := calls[1..];
      OrderedPairwise(rest, Phase(calls[0]));
      forall k | 1 <= k < |calls| ensures calls[k] == rest[k - 1] { }
    }
  }

  /** One guarded call: ordered from its phase and at most its phase. */
  lemma WhenOrdered(cond: bool, call: HostCall)
    ensures OrderedFrom(When(cond, call), Phase(call)) && AtMost(When(cond, call), Phase(call))
  {
    if cond {
      assert When(cond, call)[1..] == [];
    }
  }

  /** Appending a guarded call of a later phase keeps a sequence ordered. */
  lemma AppendWhen(a: seq<HostCall>, cond: bool, call: HostCall)
    requires OrderedFrom(a, 0) && AtMost(a, Phase(call))
    ensures OrderedFrom(a + When(cond, call), 0) && AtMost(a + When(cond, call), Phase(call))
  {
    WhenOrdered(cond, call);
    OrderedAppend(a, When(cond, call), 0, Phase(call));
    AtMostAppend(a, When(cond, call), Phase(call));
  }

  lemma FieldCallsOrdered(req: Request, item: Item)
    ensures OrderedFrom(FieldCalls(req, item), 0) && AtMost(FieldCalls(req, item), 4)
  {
    SettersOrdered(
      |req.to| > 0 && item.canSetTo, |req.cc| > 0 && item.canSetCc, |req.bcc| > 0 && item.canSetBcc,
      req.subject != "" && item.canSetSubject, req.htmlBody != "" && item.canSetBody,
      AsEmailAddresses(req.to), AsEmailAddresses(req.cc), AsEmailAddresses(req.bcc), req.subject, req.htmlBody);
  }

  lemma SettersOrdered(
    onTo: bool, onCc: bool, onBcc: bool, onSubject: bool, onBody: bool,
    to: seq<EmailAddress>, cc: seq<EmailAddress>, bcc: seq<EmailAddress>, subject: string, html: string)
    ensures var fields := Setters(onTo, onCc, onBcc, onSubject, onBody, to, cc, bcc, subject, html);
            OrderedFrom(fields, 0) && AtMost(fields, 4)
  {
    var t := When(onTo, SetTo(to));
    WhenOrdered(onTo, SetTo(to));
    AppendWhen(t, onCc, SetCc(cc));
    AppendWhen(t + When(onCc, SetCc(cc)), onBcc, SetBcc(bcc));
    AppendWhen(t + When(onCc, SetCc(cc)) + When(onBcc, SetBcc(bcc)), onSubject, SetSubject(subject));
    AppendWhen(t + When(onCc, SetCc(cc)) + When(onBcc, SetBcc(bcc)) + When(onSubject, SetSubject(subject)), onBody, SetBodyHtml(html));
  }

  /** Url adds and then base64 adds after the field setters keep the phases in order. */
  lemma PlanOrdered(fields: seq<HostCall>, urls: seq<HostCall>, adds: seq<HostCall>)
    requires OrderedFrom(fields, 0) && AtMost(fields, 4)
    requires forall k :: 0 <= k < |urls| ==> urls[k].AddFileAttachment?
    requires forall k :: 0 <= k < |adds| ==> adds[k].AddBase64Attachment?
    ensures OrderedFrom(fields + urls + adds, 0)
  {
    SamePhaseOrdered(urls, 5);
    SamePhaseOrdered(adds, 6);
    OrderedAppend(fields, urls, 0, 5);
    AtMostAppend(fields, urls, 5);
    OrderedAppend(fields + urls, adds, 0, 6);
  }

  lemma {:induction false} SamePhaseOrdered(calls: seq<HostCall>, p: nat)
    requires forall k :: 0 <= k < |calls| ==> Phase(calls[k]) == p
    ensures OrderedFrom(calls, p) && AtMost(calls, p)
    decreases |calls|
  {
    if |calls| > 0 {
      forall k | 0 <= k < |calls[1..]| ensures Phase(calls[1..][k]) == p {
        assert calls[1..][k] == calls[k + 1];
      }
      SamePhaseOrdered(calls[1..], p);
    }
  }

  /**
   The compose path's calls come in the order to, cc, bcc, subject, body, url
   adds, base64 adds: their phases never go down.
   */
  lemma ComposePlanOrdered(req: Request, item: Item)
    ensures var plan := ComposePlan(req, item);
            forall i, j :: 0 <= i < j < |plan| ==> Phase(plan[i]) <= Phase(plan[j])
  {
    FieldCallsOrdered(req, item);
    PlanOrdered(FieldCalls(req, item), UrlCalls(UrlFiles(req.attachments)), Base64Calls(Base64Entries(req.attachments)));
    OrderedPairwise(ComposePlan(req, item), 0);
  }

  /**
   What the compose path plans: the field setters `FieldCallsContents`
   describes, then one add per attachment, and no window call.
   */
  lemma ComposePlanContents(req: Request, item: Item)
    ensures var plan, fields := ComposePlan(req, item), FieldCalls(req, item);
            var urls, entries := UrlFiles(req.attachments), Base64Entries(req.attachments);
            && |plan| == |fields| + |req.attachments|
            && plan[..|fields|] == fields
            && (forall k :: 0 <= k < |urls| ==>
                  plan[|fields| + k] == AddFileAttachment(urls[k].url, urls[k].name, urls[k].isInline))
            && (forall k :: 0 <= k < |entries| ==>
                  plan[|fields| + |urls| + k]
                  == AddBase64Attachment(SplitDataUri(entries[k].value).base64, entries[k].name, entries[k].isInline))
            && (forall c :: c in plan ==> c in fields || c.AddFileAttachment? || c.AddBase64Attachment?)
            && (forall c :: c in plan ==> !c.DisplayNewMessageForm? && !c.Wait?)
  {
    var fields := FieldCalls(req, item);
    var urls, adds := UrlCalls(UrlFiles(req.attachments)), Base64Calls(Base64Entries(req.attachments));
    AttachmentPartition(req.attachments);
    FieldCallsContents(req, item);
    OnlyAddsAfterFields(fields, urls, adds);
    assert ComposePlan(req, item) == fields + urls + adds;
    assert (fields + urls + adds)[..|fields|] == fields;
  }

  /**
   The field setters made are exactly those whose value is non-empty and whose
   setter exists, each carrying its value: recipients as address records, the
   subject and the body verbatim.
   */
  lemma FieldCallsContents(req: Request, item: Item)
    ensures forall c :: c in FieldCalls(req, item) <==>
              || (c == SetTo(AsEmailAddresses(req.to)) && |req.to| > 0 && item.canSetTo)
              || (c == SetCc(AsEmailAddresses(req.cc)) && |req.cc| > 0 && item.canSetCc)
              || (c == SetBcc(AsEmailAddresses(req.bcc)) && |req.bcc| > 0 && item.canSetBcc)
              || (c == SetSubject(req.subject) && req.subject != "" && item.canSetSubject)
              || (c == SetBodyHtml(req.htmlBody) && req.htmlBody != "" && item.canSetBody)
    ensures StrictlyOrdered(FieldCalls(req, item))
  {
    var onTo, onCc, onBcc := |req.to| > 0 && item.canSetTo, |req.cc| > 0 && item.canSetCc, |req.bcc| > 0 && item.canSetBcc;
    var onSubject, onBody := req.subject != "" && item.canSetSubject, req.htmlBody != "" && item.canSetBody;
    var to, cc, bcc := AsEmailAddresses(req.to), AsEmailAddresses(req.cc), AsEmailAddresses(req.bcc);
    SettersContents(onTo, onCc, onBcc, onSubject, onBody, to, cc, bcc, req.subject, req.htmlBody);
    SettersStrict(onTo, onCc, onBcc, onSubject, onBody, to, cc, bcc, req.subject, req.htmlBody);
  }

  /** Phases strictly increase along the list, so no kind of call appears twice. */
  predicate StrictlyOrdered(calls: seq<HostCall>) {
    forall i, j :: 0 <= i < j < |calls| ==> Phase(calls[i]) < Phase(calls[j])
  }

  lemma SettersStrict(
    onTo: bool, onCc: bool, onBcc: bool, onSubject: bool, onBody: bool,
    to: seq<EmailAddress>, cc: seq<EmailAddress>, bcc: seq<EmailAddress>, subject: string, html: string)
    ensures StrictlyOrdered(Setters(onTo, onCc, onBcc, onSubject, onBody, to, cc, bcc, subject, html))
  {
    var a0: seq<HostCall> := [];
    StrictAppendWhen(a0, onTo, SetTo(to), 0);
    var a1 := a0 + When(onTo, SetTo(to));
    StrictAppendWhen(a1, onCc, SetCc(cc), 1);
    var a2 := a1 + When(onCc, SetCc(cc));
    StrictAppendWhen(a2, onBcc, SetBcc(bcc), 2);
    var a3 := a2 + When(onBcc, SetBcc(bcc));
    StrictAppendWhen(a3, onSubject, SetSubject(subject), 3);
    var a4 := a3 + When(onSubject, SetSubject(subject));
    StrictAppendWhen(a4, onBody, SetBodyHtml(html), 4);
    assert a1 == When(onTo, SetTo(to));
  }

  /** Every call of `calls` is of a phase before `p`. */
  predicate PhasesBelow(calls: seq<HostCall>, p: nat) {
    forall k :: 0 <= k < |calls| ==> Phase(calls[k]) < p
  }

  /** A guarded call of a later phase than everything before it keeps the phases strictly increasing. */
  lemma StrictAppendWhen(a: seq<HostCall>, cond: bool, call: HostCall, p: nat)
    requires StrictlyOrdered(a) && PhasesBelow(a, p) && Phase(call) == p
    ensures StrictlyOrdered(a + When(cond, call)) && PhasesBelow(a + When(cond, call), p + 1)
  {
  }

  lemma SettersContents(
    onTo: bool, onCc: bool, onBcc: bool, onSubject: bool, onBody: bool,
    to: seq<EmailAddress>, cc: seq<EmailAddress>, bcc: seq<EmailAddress>, subject: string, html: string)
    ensures forall c :: c in Setters(onTo, onCc, onBcc, onSubject, onBody, to, cc, bcc, subject, html) <==>
              || (c == SetTo(to) && onTo)
              || (c == SetCc(cc) && onCc)
              || (c == SetBcc(bcc) && onBcc)
              || (c == SetSubject(subject) && onSubject)
              || (c == SetBodyHtml(html) && onBody)
  {
  }

  /** Appending attachment adds to the field setters adds no setter and no window call. */
  lemma OnlyAddsAfterFields(fields: seq<HostCall>, urls: seq<HostCall>, adds: seq<HostCall>)
    requires forall k :: 0 <= k < |urls| ==> urls[k].AddFileAttachment?
    requires forall k :: 0 <= k < |adds| ==> adds[k].AddBase64Attachment?
    ensures forall c :: c in fields + urls + adds ==> c in fields || c.AddFileAttachment? || c.AddBase64Attachment?
  {
  }

  /**
   The compose path attempts a prefix of its plan, in order. It reports success
   exactly when every planned call succeeds, having then made all of them;
   otherwise it reports the error of the last call it made, every earlier call
   having succeeded and stayed applied.
   */
  lemma ComposeRunSpec(item: Item, plan: seq<HostCall>, outcomes: seq<CallResult>)
    ensures var d := ComposeRun(item, plan, outcomes);
            && d.trace == plan[..|d.trace|]
            && (d.report == ComposeApplied <==> AllSucceed(Some(item), plan, outcomes, 0, |plan|))
            && (d.report == ComposeApplied ==> d.trace == plan)
            && (d.report.ComposeFailed? ==>
                  && |d.trace| > 0
                  && AllSucceed(Some(item), plan, outcomes, 0, |d.trace| - 1)
                  && ResultOf(Some(item), plan[|d.trace| - 1], outcomes, |d.trace| - 1) == Failed(d.report.error))
            && (d.report == ComposeApplied || d.report.ComposeFailed?)
  {
    RunSequentialSpec(Some(item), plan, outcomes, 0);
  }

  /**
   The new-window path opens the window first with the parsed fields and the
   url attachments. If that throws it stops; if there is no base64 entry it
   stops after that one call; otherwise it waits and then adds the base64
   entries in order, stopping at the first failure.
   */
  lemma NewWindowPathSpec(req: Request, mbox: Mailbox, outcomes: seq<CallResult>)
    ensures var d, adds := NewWindowPath(req, mbox, outcomes), Base64Calls(Base64Entries(req.attachments));
            && |d.trace| > 0
            && d.trace[0] == DisplayNewMessageForm(req.to, req.cc, req.bcc, req.subject, req.htmlBody, UrlFiles(req.attachments))
            && (OutcomeAt(outcomes, 0).Failed? ==> |d.trace| == 1 && d.report == NewWindowFailed(OutcomeAt(outcomes, 0).error))
            && (OutcomeAt(outcomes, 0).Succeeded? && |adds| == 0 ==> |d.trace| == 1 && d.report == NewWindowOpened)
            && (OutcomeAt(outcomes, 0).Succeeded? && |adds| > 0 ==>
                  && |d.trace| >= 3
                  && d.trace[1] == Wait(NewWindowDelay)
                  && d.trace[2..] == adds[..|d.trace| - 2]
                  && (d.report == NewWindowWithAttachments <==> AllSucceed(mbox.item, adds, outcomes, 1, |adds|))
                  && (d.report == NewWindowWithAttachments ==> d.trace[2..] == adds)
                  && (d.report.Base64AttachFailed? ==>
                        && AllSucceed(mbox.item, adds, outcomes, 1, |d.trace| - 3)
                        && ResultOf(mbox.item, adds[|d.trace| - 3], outcomes, |d.trace| - 2) == Failed(d.report.error))
                  && (d.report == NewWindowWithAttachments || d.report.Base64AttachFailed?))
  {
    var adds := Base64Calls(Base64Entries(req.attachments));
    RunSequentialSpec(mbox.item, adds, outcomes, 1);
    var d := NewWindowPath(req, mbox, outcomes);
    if OutcomeAt(outcomes, 0).Succeeded? && |adds| > 0 {
      var run := RunSequential(mbox.item, adds, outcomes, 1);
      assert d.trace == [d.trace[0], Wait(NewWindowDelay)] + run.issued;
      assert d.trace[2..] == run.issued;
    }
  }

  /**
   Base64 entries are added to the task pane's current item, so with no item,
   or one without the base64 method, the first add throws and the window stays
   open without them.
   */
  lemma NewWindowWithoutItem(req: Request, mbox: Mailbox, outcomes: seq<CallResult>)
    requires mbox.item.None? || !mbox.item.value.canAddBase64
    requires OutcomeAt(outcomes, 0).Succeeded? && |Base64Entries(req.attachments)| > 0
    ensures var d := NewWindowPath(req, mbox, outcomes);
            && |d.trace| == 3
            && d.report == Base64AttachFailed(MissingMethod)
  {
  }

  /** A host whose mailbox offers `displayNewMessageForm` takes only the new-window path. */
  lemma NewWindowBranch(req: Request, host: Host, outcomes: seq<CallResult>)
    requires host.mailbox.Some? && host.mailbox.value.hasDisplayNewMessageForm
    ensures var d := DispatchRequest(req, host, outcomes);
            && |d.trace| > 0 && d.trace[0].DisplayNewMessageForm?
            && (forall k :: 0 < k < |d.trace| ==> d.trace[k].Wait? || d.trace[k].AddBase64Attachment?)
            && (d.report.NewWindowOpened? || d.report.NewWindowWithAttachments? || d.report.Base64AttachFailed? || d.report.NewWindowFailed?)
  {
    NewWindowPathSpec(req, host.mailbox.value, outcomes);
    var d := DispatchRequest(req, host, outcomes);
    var adds := Base64Calls(Base64Entries(req.attachments));
    forall k | 0 < k < |d.trace| ensures d.trace[k].Wait? || d.trace[k].AddBase64Attachment? {
      if k >= 2 {
        assert d.trace[k] == d.trace[2..][k - 2] == adds[k - 2];
      }
    }
  }

  /** Without the new-window capability, a compose item takes the compose path and no window is opened. */
  lemma ComposeBranch(req: Request, host: Host, outcomes: seq<CallResult>)
    requires host.mailbox.Some? && !host.mailbox.value.hasDisplayNewMessageForm
    requires var item := host.mailbox.value.item; item.Some? && item.value.hasItemType && item.value.hasSaveAsync
    ensures var d := DispatchRequest(req, host, outcomes);
            && d == ComposePath(req, host.mailbox.value.item.value, outcomes)
            && (forall c :: c in d.trace ==> !c.DisplayNewMessageForm? && !c.Wait?)
            && (d.report.ComposeApplied? || d.report.ComposeFailed?)
  {
    var item := host.mailbox.value.item.value;
    var plan := ComposePlan(req, item);
    ComposeRunSpec(item, plan, outcomes);
    ComposePlanContents(req, item);
    PrefixMembers(plan, |ComposeRun(item, plan, outcomes).trace|);
  }

  lemma PrefixMembers(xs: seq<HostCall>, n: nat)
    requires n <= |xs|
    ensures forall c :: c in xs[..n] ==> c in xs
  {
  }

  /** With neither capability the task pane makes no host call and reports how to use it. */
  lemma UnsupportedBranch(req: Request, host: Host, outcomes: seq<CallResult>)
    requires host.mailbox.None? || !host.mailbox.value.hasDisplayNewMessageForm
    requires host.mailbox.None? || host.mailbox.value.item.None?
             || !host.mailbox.value.item.value.hasItemType || !host.mailbox.value.item.value.hasSaveAsync
    ensures DispatchRequest(req, host, outcomes) == Dispatch([], NotInCompose)
  {
  }

  /**
   The request carries the form as parsed: recipient lists from
   `parseRecipients` (a missing field read as empty), subject and body
   verbatim, and the attachments `buildAttachments` computes.
   */
  lemma RequestFromForm(form: Form, lib: UrlLib)
    ensures var req := BuildRequest(form, lib);
            && (forall k :: 0 <= k < |req.to| ==> IsRecipient(req.to[k]))
            && (forall k :: 0 <= k < |req.cc| ==> IsRecipient(req.cc[k]))
            && (forall k :: 0 <= k < |req.bcc| ==> IsRecipient(req.bcc[k]))
            && (form.to.None? ==> req.to == [])
            && (form.cc.None? ==> req.cc == [])
            && (form.bcc.None? ==> req.bcc == [])
            && (form.subject.None? ==> req.subject == "")
            && (form.body.None? ==> req.htmlBody == "")
            && (form.attachments.None? ==> req.attachments == [])
  {
    if form.attachments.None? {
      assert SplitLines("") == [""];
      assert TrimEach([""]) == [Trim("")];
    }
  }

  /**
   End to end on the new-window path: the window opens with the parsed
   recipient lists, the subject and body as typed, and the url attachments of
   the text box; the base64 ones make up the rest of the attachment list.
   */
  lemma OpenNewWindowFromForm(form: Form, lib: UrlLib, host: Host, outcomes: seq<CallResult>)
    requires host.mailbox.Some? && host.mailbox.value.hasDisplayNewMessageForm
    ensures var d, atts := OpenComposeWithData(form, lib, host, outcomes), AttachmentsOf(form.attachments.GetOr(""), lib);
            && |d.trace| > 0
            && d.trace[0] == DisplayNewMessageForm(
                 ParseRecipients(form.to.GetOr("")), ParseRecipients(form.cc.GetOr("")), ParseRecipients(form.bcc.GetOr("")),
                 form.subject.GetOr(""), form.body.GetOr(""), UrlFiles(atts))
            && |d.trace[0].attachments| + |Base64Entries(atts)| == |atts|
  {
    var req := BuildRequest(form, lib);
    NewWindowPathSpec(req, host.mailbox.value, outcomes);
    AttachmentPartition(req.attachments);
  }
}
