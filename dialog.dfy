/**
 * The error-detail dialog itself: the text boxes AddErrorInfo fills, the
 * details toggle, the clipboard text of the copy button, the issue button and
 * the static entry point ShowDialog.
 */
module ErrorDialog {
  import opened Wrappers
  import opened Strings
  import opened HexFormat
  import opened ErrorReport
  import opened IssueLink

  const CollapsedHeight: int := 200
  const ExpandedHeight: int := 550
  /** The title used when no heading is given. */
  const DefaultTitle: string := "Error Detail"

  /** What the details button changes: the height and the visibility of the detail controls. */
  datatype DetailsView = DetailsView(
    height: int,
    detailsButtonText: string,
    detailsPanelVisible: bool,
    copyVisible: bool,
    issueVisible: bool)

  function Collapsed(): DetailsView
  {
    DetailsView(CollapsedHeight, "Show Details", false, false, false)
  }

  function Expanded(allowNewIssue: bool): DetailsView
  {
    DetailsView(ExpandedHeight, "Hide Details", true, true, allowNewIssue)
  }

  /** btnDetails_Click: below 300 the dialog expands, otherwise it collapses. */
  function ToggleDetails(v: DetailsView, allowNewIssue: bool): DetailsView
  {
    if v.height < 300 then Expanded(allowNewIssue) else Collapsed()
  }

  /** The two states the dialog is ever in. */
  predicate ViewValid(v: DetailsView, allowNewIssue: bool)
  {
    v == Collapsed() || v == Expanded(allowNewIssue)
  }

  /**
   * From either state a click moves to the other one: 200 and 550 alternate,
   * and two clicks restore the state.
   */
  lemma ToggleAlternates(v: DetailsView, allowNewIssue: bool)
    requires ViewValid(v, allowNewIssue)
    ensures ViewValid(ToggleDetails(v, allowNewIssue), allowNewIssue)
    ensures ToggleDetails(v, allowNewIssue).height == if v.height == CollapsedHeight then ExpandedHeight else CollapsedHeight
    ensures ToggleDetails(ToggleDetails(v, allowNewIssue), allowNewIssue) == v
  {
  }

  /**
   * The details panel and the copy button show exactly when the dialog is
   * expanded; the issue button only then and only if new issues are allowed.
   */
  lemma ControlsVisibleWhenExpanded(v: DetailsView, allowNewIssue: bool)
    requires ViewValid(v, allowNewIssue)
    ensures v.detailsPanelVisible <==> v.height == ExpandedHeight
    ensures v.copyVisible <==> v.height == ExpandedHeight
    ensures v.issueVisible <==> v.height == ExpandedHeight && allowNewIssue
  {
  }

  /**
   * The info box after AddErrorInfo. On the normal path it holds the summary
   * of the base message. A null base message makes the summary step throw,
   * and a null stack trace throws right after the summary is written; either
   * way the catch puts the exception's raw message there.
   */
  function InfoText(error: ErrorInfo): string
  {
    if BaseMessage(error).Some? && error.stackTrace.Some? then Summarise(BaseMessage(error).value)
    else error.message
  }

  /** The five text boxes of the dialog. */
  datatype TextFields = TextFields(info: string, errorCode: string, exception: string, message: string, callStack: string)

  /**
   * The text boxes after AddErrorInfo, given their contents before. The
   * error code is written as soon as a fault detail is seen; type, message
   * and call stack only once the base message is known.
   */
  function Shown(before: TextFields, error: ErrorInfo): TextFields
  {
    TextFields(
      InfoText(error),
      if ErrorCode(error).Some? then ErrorCode(error).value else before.errorCode,
      if BaseMessage(error).Some? then ToTypeString(error.typeName) else before.exception,
      if BaseMessage(error).Some? then error.message else before.message,
      if BaseMessage(error).Some? && error.stackTrace.Some? then Trim(error.stackTrace.value) else before.callStack)
  }

  /**
   * What AddErrorInfo leaves in the text boxes. On the normal path the info
   * box holds a slice of the base message with no white space at its ends and
   * without "MetadataCacheDetails: " or "   at "; when the base message or
   * the stack trace is null it holds the raw message. The error-code box
   * changes exactly when there is a fault detail, to "0x" and the code's
   * canonical hexadecimal digits. A null base message leaves the type,
   * message and call-stack boxes alone, and a null stack trace the call-stack
   * box.
   */
  lemma ShownOutcome(before: TextFields, error: ErrorInfo)
    ensures var after := Shown(before, error);
      && (BaseMessage(error).Some? && error.stackTrace.Some? ==>
            && (exists i :: Occurs(BaseMessage(error).value, after.info, i))
            && !Contains(after.info, MetadataTrigger)
            && !Contains(after.info, StackMarker)
            && (after.info == [] || (!IsWhiteSpace(after.info[0]) && !IsWhiteSpace(after.info[|after.info| - 1]))))
      && (BaseMessage(error).None? || error.stackTrace.None? ==> after.info == error.message)
      && (ErrorCode(error).Some? ==>
            && StartsWith(after.errorCode, "0x")
            && Canonical(after.errorCode[2..])
            && ParseHex(after.errorCode[2..]) == Unsigned(error.kind.detail.value.errorCode))
      && (ErrorCode(error).None? ==> after.errorCode == before.errorCode)
      && (BaseMessage(error).None? ==>
            after.exception == before.exception && after.message == before.message)
      && (BaseMessage(error).None? || error.stackTrace.None? ==> after.callStack == before.callStack)
  {
    if BaseMessage(error).Some? {
      SummaryProperties(BaseMessage(error).value);
    }
    if ErrorCode(error).Some? {
      var code := error.kind.detail.value.errorCode;
      ErrorCodeTextShape(code);
      StartsWithAppend("0x", Hex(Unsigned(code)));
    }
  }

  /** The clipboard text of btnCopy_Click; the code suffix appears only for a non-empty code. */
  function CopyText(timestamp: string, exceptionText: string, errorCode: string, message: string, callStack: string): string
  {
    CopyHead(timestamp, exceptionText) + CodeSuffix(errorCode) + CopyTail(message, callStack)
  }

  function CopyHead(timestamp: string, exceptionText: string): string
  {
    "Error Time: " + timestamp + "\n" + exceptionText
  }

  function CodeSuffix(errorCode: string): string
  {
    if errorCode == "" then "" else " (" + errorCode + ")"
  }

  function CopyTail(message: string, callStack: string): string
  {
    "\n" + message + "\n" + callStack
  }

  /** A text made of three pieces starts with the first and ends with the last. */
  lemma ThreePieces(head: string, mid: string, tail: string)
    ensures StartsWith(head + mid + tail, head) && EndsWith(head + mid + tail, tail)
  {
    assert head + mid + tail == head + (mid + tail);
    StartsWithAppend(head, mid + tail);
    EndsWithAppend(head + mid, tail);
  }

  /**
   * The copied text starts with "Error Time: ", the timestamp, a newline and
   * the exception type; right after the type comes " (code)" and a newline
   * when there is a code, and the newline alone when there is none; it ends
   * with the message and the call stack on lines of their own.
   */
  lemma CopyTextLayout(timestamp: string, exceptionText: string, errorCode: string, message: string, callStack: string)
    ensures var r := CopyText(timestamp, exceptionText, errorCode, message, callStack);
      var head := "Error Time: " + timestamp + "\n" + exceptionText;
      && StartsWith(r, head)
      && (errorCode != "" ==> StartsWith(r, head + " (" + errorCode + ")\n"))
      && (errorCode == "" ==> StartsWith(r, head + "\n"))
      && EndsWith(r, "\n" + message + "\n" + callStack)
  {
    var head := CopyHead(timestamp, exceptionText);
    var suffix := CodeSuffix(errorCode);
    var last := CopyTail(message, callStack);
    ThreePieces(head, suffix, last);
    var rest := message + "\n" + callStack;
    if errorCode != "" {
      assert head + suffix + last == (head + " (" + errorCode + ")\n") + rest;
      StartsWithAppend(head + " (" + errorCode + ")\n", rest);
    } else {
      assert head + suffix + last == (head + "\n") + rest;
      StartsWithAppend(head + "\n", rest);
    }
  }

  /**
   * The summary steps of AddErrorInfo one after the other: strip the
   * "System…:" prefix, cut at "MetadataCacheDetails", cut at the first stack
   * frame, trim.
   */
  method SummaryOf(msg: string) returns (m: string)
    ensures m == Summarise(msg)
  {
    m := msg;
    if StartsWith(m, "System") && Contains(m, ": ") && Utf16Length(FirstField(m)) < 50 {
      ColonOfSeparator(m);
      m := m[IndexOf(m, ":") + 1..];
    }
    assert m == StripSystemPrefix(msg);
    if Contains(m, MetadataTrigger) {
      MetadataTriggerHasWord(m);
      m := m[..IndexOf(m, MetadataWord)];
    }
    assert m == CutAtMetadata(StripSystemPrefix(msg));
    if Contains(m, StackMarker) {
      m := m[..IndexOf(m, StackMarker)];
    }
    m := Trim(m);
  }

  /** The dialog: what it was given, its title, its text boxes and its details state. */
  class ErrorDetail {
    const owner: Tool
    const exception: ErrorInfo
    const extrainfo: Option<string>
    const allownewissue: bool
    /** DateTime.Now at construction, already formatted as "yyyy-MM-dd HH:mm:ss.fff". */
    const timestamp: string
    /** The window title; only the constructor sets it. */
    const title: string
    var txtInfo: string
    var txtErrorCode: string
    var txtException: string
    var txtMessage: string
    var txtCallStack: string
    var height: int
    var detailsButtonText: string
    var detailsPanelVisible: bool
    var copyVisible: bool
    var issueVisible: bool
    var topMost: bool

    function View(): DetailsView
      reads this`height, this`detailsButtonText, this`detailsPanelVisible, this`copyVisible, this`issueVisible
    {
      DetailsView(height, detailsButtonText, detailsPanelVisible, copyVisible, issueVisible)
    }

    function Texts(): TextFields
      reads this`txtInfo, this`txtErrorCode, this`txtException, this`txtMessage, this`txtCallStack
    {
      TextFields(txtInfo, txtErrorCode, txtException, txtMessage, txtCallStack)
    }

    ghost predicate Valid()
      reads this`height, this`detailsButtonText, this`detailsPanelVisible, this`copyVisible, this`issueVisible
    {
      ViewValid(View(), allownewissue)
    }

    /**
     * The private constructor: stores its arguments, takes the heading as
     * title when it is non-empty, fills the text boxes and collapses the
     * dialog. The designer's initial text boxes are empty and its detail
     * controls hidden.
     */
    constructor (owner: Tool, exception: ErrorInfo, heading: Option<string>, extrainfo: Option<string>,
                 allownewissue: bool, timestamp: string)
      ensures this.owner == owner && this.exception == exception && this.extrainfo == extrainfo
      ensures this.allownewissue == allownewissue && this.timestamp == timestamp
      ensures title == if heading.Some? && heading.value != "" then heading.value else DefaultTitle
      ensures Texts() == Shown(TextFields("", "", "", "", ""), exception)
      ensures View() == Collapsed() && Valid()
      ensures topMost
    {
      this.owner := owner;
      this.exception := exception;
      this.extrainfo := extrainfo;
      this.allownewissue := allownewissue;
      this.timestamp := timestamp;
      title := DefaultTitle;
      txtInfo, txtErrorCode, txtException, txtMessage, txtCallStack := "", "", "", "", "";
      height := 0;
      detailsButtonText := "Show Details";
      detailsPanelVisible, copyVisible, issueVisible := false, false, false;
      topMost := true;
      if heading.Some? && heading.value != "" {
        title := heading.value;
      }
      new;
      assert Texts() == TextFields("", "", "", "", "");
      AddErrorInfo(exception);
      assert topMost;
      assert Texts() == Shown(TextFields("", "", "", "", ""), exception);
      height := CollapsedHeight;
      assert View() == Collapsed();
    }

    /**
     * AddErrorInfo: picks the base message, writes the error code of a fault
     * detail, then strips, cuts and trims the message step by step. A null
     * message or a null stack trace lands in the catch, which shows the raw
     * message.
     */
    method AddErrorInfo(error: ErrorInfo)
      modifies this`txtInfo, this`txtErrorCode, this`txtException, this`txtMessage, this`txtCallStack
      ensures Texts() == Shown(old(Texts()), error)
    {
      var msg: Option<string> := Some(error.message);
      match error.kind {
        case Plain =>
        case OrganizationFault(detail) =>
          msg := Some(error.message);
          if detail.Some? {
            var orgerr := detail.value;
            msg := orgerr.message;
            if orgerr.innerFault.Some? {
              msg := orgerr.innerFault.value.message;
            }
            txtErrorCode := ErrorCodeText(orgerr.errorCode);
          }
      }
      assert msg == BaseMessage(error);
      if msg.None? {
        txtInfo := error.message;
        return;
      }
      var m := SummaryOf(msg.value);
      txtInfo := m;
      txtException := ToTypeString(error.typeName);
      txtMessage := error.message;
      if error.stackTrace.None? {
        txtInfo := error.message;
      } else {
        txtCallStack := Trim(error.stackTrace.value);
      }
    }

    /** btnDetails_Click: expands a collapsed dialog and collapses an expanded one. */
    method DetailsClicked()
      modifies this`height, this`detailsButtonText, this`detailsPanelVisible, this`copyVisible, this`issueVisible
      ensures View() == ToggleDetails(old(View()), allownewissue)
      ensures Valid()
    {
      if height < 300 {
        detailsButtonText := "Hide Details";
        detailsPanelVisible := true;
        copyVisible := true;
        issueVisible := allownewissue;
        height := ExpandedHeight;
      } else {
        detailsButtonText := "Show Details";
        detailsPanelVisible := false;
        copyVisible := false;
        issueVisible := false;
        height := CollapsedHeight;
      }
    }

    /** btnCopy_Click: the text put on the clipboard. */
    method CopyClicked() returns (details: string)
      ensures details == CopyText(timestamp, txtException, txtErrorCode, txtMessage, txtCallStack)
    {
      details := "Error Time: " + timestamp + "\n";
      details := details + txtException;
      if txtErrorCode != "" {
        details := details + " (" + txtErrorCode + ")";
      }
      details := details + "\n" + txtMessage;
      details := details + "\n" + txtCallStack;
    }

    /** btnIssue_Click: the URL opened for a new issue, and the dialog stops being top-most. */
    method IssueClicked(version: string) returns (url: Option<string>)
      modifies this`topMost
      ensures url == CreateNewIssueFromError(Some(owner), exception, extrainfo, version)
      ensures !topMost
    {
      url := CreateNewIssueFromError(Some(owner), exception, extrainfo, version);
      topMost := false;
    }
  }

  /**
   * ErrorDetail.ShowDialog: no dialog without an owner or an exception;
   * otherwise a new, collapsed dialog for them.
   */
  method ShowDialog(owner: Option<Tool>, exception: Option<ErrorInfo>, heading: Option<string>,
                    extrainfo: Option<string>, allownewissue: bool, timestamp: string)
    returns (dialog: ErrorDetail?)
    ensures dialog == null <==> owner.None? || exception.None?
    ensures dialog != null ==>
      && fresh(dialog) && dialog.Valid() && dialog.View() == Collapsed()
      && dialog.owner == owner.value && dialog.exception == exception.value
      && dialog.extrainfo == extrainfo && dialog.allownewissue == allownewissue
      && dialog.timestamp == timestamp && dialog.topMost
      && dialog.title == (if heading.Some? && heading.value != "" then heading.value else DefaultTitle)
      && dialog.Texts() == Shown(TextFields("", "", "", "", ""), exception.value)
  {
    if owner.None? || exception.None? {
      return null;
    }
    dialog := new ErrorDetail(owner.value, exception.value, heading, extrainfo, allownewissue, timestamp);
  }
}
