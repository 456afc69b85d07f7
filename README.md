# XrmToolBox error-detail dialog

A Dafny model of `ErrorDetail`, the error dialog that XrmToolBox tools open
through `ErrorDetail.ShowDialog`. It covers:

- the summary line the dialog shows for an exception: the base message picked
  from an organization-service fault, the `System…:` prefix strip, the cuts at
  `MetadataCacheDetails` and at the first `   at ` stack frame, the trim, and
  the fallback to the raw message;
- the error code, written as `0x` followed by the code's 32-bit
  two's-complement value in upper-case hexadecimal;
- the exception type name, with `` `1[ `` rewritten to `<` and `]` to `>`;
- the GitHub "new issue" URL built by `CreateNewIssue` and
  `CreateNewIssueFromError`: the body with stack frames turned into bullets,
  the optional extra-info block, the version, DB-version and deployment lines,
  and the escaping of newline, `&` and space;
- the "Show/Hide Details" toggle, the text placed on the clipboard by the copy
  button, and the issue button.

Modules:

- `Wrappers`: `Option`, which stands for a .NET reference that may be null.
- `Strings`: the .NET string operations the dialog uses, on `seq<char>`
  (a `char` is a Unicode scalar value; `Utf16Length` gives the
  `String.Length` that .NET reports, counting a surrogate pair as two):
  - `Contains`, `Replace`, `IndexOf(char)` and `Split(char)`, which .NET
    compares ordinally, exactly as modelled;
  - `StartsWith(string)` and `IndexOf(string)`, which .NET compares by the
    current culture, modelled as ordinal comparisons;
  - `Trim`, which uses `char.IsWhiteSpace`;
  - `ToLower`, modelled for ASCII letters.
- `HexFormat`: `Int32.ToString("X")` and its inverse.
- `ErrorReport`:
  - the exception and fault data;
  - the summary pipeline of `AddErrorInfo`;
  - `ToTypeString`.
- `IssueLink`: `CreateNewIssue` and `CreateNewIssueFromError`.
- `ErrorDialog`:
  - the `ErrorDetail` class, whose fields are the text boxes, the window
    height and the visibility flags that the event handlers update;
  - the pure view and copy-text functions that specify those handlers;
  - `ShowDialog`.

## Model

| member | source | states |
|---|---|---|
| ErrorReport.BaseMessagePrecedence | XrmToolBox.Extensibility/Forms/ErrorDetail.cs:82-92 | The base message is the inner fault's message when there is an inner fault, else the fault detail's message, else the exception's message. |
| ErrorReport.ErrorCode | XrmToolBox.Extensibility/Forms/ErrorDetail.cs:83-94 | An error code is produced exactly when the exception is an organization-service fault that carries a fault detail. |
| HexFormat.ErrorCodeTextShape | XrmToolBox.Extensibility/Forms/ErrorDetail.cs:93 | The code text is `0x` followed by canonical upper-case hex digits: no leading zero, and a lone `0` for zero. The digits parse back to the code modulo 2^32. There are at most 8 of them, and exactly 8 for a negative code. |
| HexFormat.Unsigned | XrmToolBox.Extensibility/Forms/ErrorDetail.cs:93 | The unsigned value is below 2^32 and congruent to the signed code modulo 2^32, so it is the two's-complement reading. |
| HexFormat.ParseHexOfHex | XrmToolBox.Extensibility/Forms/ErrorDetail.cs:93 | Parsing the hex text of any natural number gives that number back. |
| HexFormat.HexOfParseHex | XrmToolBox.Extensibility/Forms/ErrorDetail.cs:93 | Formatting the value of any canonical digit string gives that string back. |
| ErrorReport.FirstField | XrmToolBox.Extensibility/Forms/ErrorDetail.cs:96 | `Split(':')[0]` holds no colon. It is either the whole message, or the prefix that ends just before the message's first colon. |
| Strings.IndexOf | XrmToolBox.Extensibility/Forms/ErrorDetail.cs:98 | The result is -1 exactly when the pattern does not occur. Otherwise it is a position where the pattern occurs, and no earlier position has an occurrence. |
| ErrorReport.StripSystemPrefixSpec | XrmToolBox.Extensibility/Forms/ErrorDetail.cs:96-99 | The prefix is removed only when three things hold: the message starts with "System", contains ": ", and has its first ':' preceded by fewer than 50 UTF-16 code units (the `Length` of `Split(':')[0]`). The result is then exactly the text after that first ':'. Otherwise the message is unchanged. |
| Strings.Utf16Length | XrmToolBox.Extensibility/Forms/ErrorDetail.cs:96 | `String.Length` counts UTF-16 code units: at least the number of characters and at most twice it, exactly that number when every character lies in the Basic Multilingual Plane, and exactly twice it when none does. |
| Strings.Utf16LengthAppend | XrmToolBox.Extensibility/Forms/ErrorDetail.cs:96 | The code units of a concatenation are the sum of the code units of its parts. |
| ErrorReport.StripKeepsWideHead | XrmToolBox.Extensibility/Forms/ErrorDetail.cs:96-99 | "System" followed by 22 characters outside the Basic Multilingual Plane and then ": x" keeps its prefix: the first colon comes after 28 characters but 50 code units. |
| ErrorReport.CutAtMetadata | XrmToolBox.Extensibility/Forms/ErrorDetail.cs:100-103 | Without "MetadataCacheDetails: " the message is unchanged. With it, the result is the prefix before the first "MetadataCacheDetails": the word occurs right after the result, no occurrence of the word starts inside the result, and the result holds neither the word nor "MetadataCacheDetails: ". |
| ErrorReport.CutAtStackMarker | XrmToolBox.Extensibility/Forms/ErrorDetail.cs:104-107 | Without "   at " the message is unchanged. With it, the result is the prefix before the first "   at ": the marker occurs right after the result, and no occurrence starts anywhere inside the result, not even one that runs past its end. |
| Strings.Trim | XrmToolBox.Extensibility/Forms/ErrorDetail.cs:108 | The trimmed text is no longer than the input. It is empty, or it starts and ends with a non-white-space character. |
| Strings.TrimOfTrimmed | XrmToolBox.Extensibility/Forms/ErrorDetail.cs:108 | A text with no white space at either end is unchanged by `Trim`. |
| Strings.TrimOffset | XrmToolBox.Extensibility/Forms/ErrorDetail.cs:108 | The trimmed text occurs in the input, and only white space lies before it and after it. |
| ErrorReport.SummaryProperties | XrmToolBox.Extensibility/Forms/ErrorDetail.cs:96-108 | The summary is a contiguous slice of the base message. It holds neither "MetadataCacheDetails: " nor "   at ", and has no white space at either end. When the stripped message held "MetadataCacheDetails: ", the summary also lacks "MetadataCacheDetails". |
| ErrorReport.SummaryOfCleanMessage | XrmToolBox.Extensibility/Forms/ErrorDetail.cs:96-108 | A message with no ": ", no "   at " and no white space at either end is its own summary: no step of the pipeline changes it. |
| ErrorReport.SummaryKeepsBareMetadataWord | XrmToolBox.Extensibility/Forms/ErrorDetail.cs:100-103 | A message that is just the word "MetadataCacheDetails", with no ": " after it, passes through the pipeline unchanged. |
| ErrorReport.SummaryExample | XrmToolBox.Extensibility/Forms/ErrorDetail.cs:96-108 | "boom   at X.Y()" is summarised as "boom", the text before the stack frame. |
| ErrorDialog.SummaryOf | XrmToolBox.Extensibility/Forms/ErrorDetail.cs:96-108 | The step-by-step reassignment of `msg` computes the summary function. |
| ErrorDialog.ShownOutcome | XrmToolBox.Extensibility/Forms/ErrorDetail.cs:78-118 | See the notes below the table. |
| ErrorDialog.ErrorDetail.AddErrorInfo | XrmToolBox.Extensibility/Forms/ErrorDetail.cs:78-118 | The five text boxes become the outcome described for ShownOutcome, and the window and its controls are unchanged. |
| ErrorReport.ToTypeString | XrmToolBox.Extensibility/Forms/ErrorDetail.cs:160-168 | A type name without "`1[" is returned unchanged. Otherwise the result holds neither "`1[" nor "]". |
| ErrorReport.ToTypeStringOfGeneric | XrmToolBox.Extensibility/Forms/ErrorDetail.cs:160-168 | A one-argument generic name "Name`1[Arg]", where neither part holds "`1[" or "]", is shown as "Name<Arg>". |
| Strings.ReplaceRemovesPattern | XrmToolBox.Extensibility/Forms/ErrorDetail.cs:57 | After every occurrence of a pattern is replaced by a text that shares no character with it, the pattern no longer occurs. |
| Strings.ReplaceAtFirstMatch | XrmToolBox.Extensibility/Forms/ErrorDetail.cs:165 | When the text before a pattern's first occurrence is free of it, and the pattern's first character appears nowhere else in it, Replace keeps that text, puts the replacement there and carries on after the match. |
| IssueLink.EscapeBody | XrmToolBox.Extensibility/Forms/ErrorDetail.cs:57 | The escaped body holds no newline, `&` or space. It is longer than the input by exactly 2 for each newline, `&` and space of the input. |
| IssueLink.EscapeOneChar | XrmToolBox.Extensibility/Forms/ErrorDetail.cs:57 | The chained replaces send a newline to "%0A", `&` to "%26" and a space to "%20", and keep every other single character. |
| IssueLink.EscapeIsPerCharacter | XrmToolBox.Extensibility/Forms/ErrorDetail.cs:57 | Escaping the body by the three chained replaces equals escaping it character by character with that mapping. |
| IssueLink.EscapeExample | XrmToolBox.Extensibility/Forms/ErrorDetail.cs:57 | "a&b c\nd" is escaped as "a%26b%20c%0Ad". |
| IssueLink.EscapeRemovesSpecials | XrmToolBox.Extensibility/Forms/ErrorDetail.cs:57 | After the three chained replaces, none of newline, `&` or space is left. A later replace never brings back a character an earlier one removed. |
| IssueLink.EscapeLength | XrmToolBox.Extensibility/Forms/ErrorDetail.cs:57 | Each of the three replaces adds two characters for each occurrence of its character in the original text. |
| IssueLink.EscapeAppend | XrmToolBox.Extensibility/Forms/ErrorDetail.cs:57 | Escaping distributes over concatenation, so each piece of the body is escaped independently. |
| IssueLink.EscapeKeepsPlainText | XrmToolBox.Extensibility/Forms/ErrorDetail.cs:57 | Text with no newline, `&` or space is left unchanged by escaping. |
| IssueLink.EscapeQuery | XrmToolBox.Extensibility/Forms/ErrorDetail.cs:45-57 | The "?body=" that starts the query passes through the escaping unchanged. |
| IssueLink.Deployment | XrmToolBox.Extensibility/Forms/ErrorDetail.cs:55 | The deployment is either "Online" or "OnPremise". |
| IssueLink.DeploymentIgnoresCase | XrmToolBox.Extensibility/Forms/ErrorDetail.cs:55 | The deployment is "Online" exactly when "dynamics.com" occurs in the web application URL, ignoring the case of its letters. |
| IssueLink.DeploymentOfLiteralHost | XrmToolBox.Extensibility/Forms/ErrorDetail.cs:55 | A URL that contains "dynamics.com" literally is an Online deployment. |
| IssueLink.IssueBodyEnding | XrmToolBox.Extensibility/Forms/ErrorDetail.cs:51-56 | Without a connection, the body ends with the version line. With a connection, it ends with the "- DB Version: …" line followed by the deployment line. |
| IssueLink.IssueUrlShape | XrmToolBox.Extensibility/Forms/ErrorDetail.cs:57-59 | The URL starts with the issues page and "?body=". Everything after the page is the escaped query, and it holds no space, newline or `&`. |
| IssueLink.CreateNewIssue | XrmToolBox.Extensibility/Forms/ErrorDetail.cs:39-60 | No URL is produced when the tool is null or has no GitHub repository. Otherwise the URL is `https://github.com/{user}/{repo}/issues/new` followed by the escaped "?body=" query, with no space, newline or `&` after the page. |
| IssueLink.StackLinesBecomeBullets | XrmToolBox.Extensibility/Forms/ErrorDetail.cs:46 | A .NET stack trace whose lines are "   at " followed by a frame is rewritten line by line. Each line becomes "- " followed by the frame, provided the frames do not themselves contain "   at ". |
| IssueLink.FencedBullets | XrmToolBox.Extensibility/Forms/ErrorDetail.cs:37-46 | Rewriting "   at " to "- " in the fenced error block rewrites the type name, the message and the stack trace each on its own, and keeps the fence and separators. |
| IssueLink.ErrorBlockBullets | XrmToolBox.Extensibility/Forms/ErrorDetail.cs:36-46 | In the block filed by CreateNewIssueFromError for a stack trace of plain frames, the stack lines become "- " bullets, and the type name and the message get the same "   at " rewrite, including a server stack trace embedded in a fault message. |
| ErrorDialog.ToggleAlternates | XrmToolBox.Extensibility/Forms/ErrorDetail.cs:120-138 | From a valid view, a click moves the height from 200 to 550 or from 550 to 200 and keeps the view valid. Two clicks restore the view. |
| ErrorDialog.ControlsVisibleWhenExpanded | XrmToolBox.Extensibility/Forms/ErrorDetail.cs:120-138 | In a valid view, the details panel and the copy button are visible exactly when the dialog is expanded. The issue button is visible exactly when the dialog is expanded and new issues are allowed. |
| ErrorDialog.ErrorDetail.DetailsClicked | XrmToolBox.Extensibility/Forms/ErrorDetail.cs:120-138 | The click toggles the window's view and keeps it valid. |
| ErrorDialog.CopyTextLayout | XrmToolBox.Extensibility/Forms/ErrorDetail.cs:140-149 | See the notes below the table. |
| ErrorDialog.ErrorDetail.CopyClicked | XrmToolBox.Extensibility/Forms/ErrorDetail.cs:140-149 | The clipboard text is the copy layout of the timestamp and the current text boxes. |
| ErrorDialog.ErrorDetail.IssueClicked | XrmToolBox.Extensibility/Forms/ErrorDetail.cs:154-158 | The click yields the URL of CreateNewIssueFromError for the dialog's owner, exception and extra info. It then clears TopMost. |
| ErrorDialog.ErrorDetail.constructor | XrmToolBox.Extensibility/Forms/ErrorDetail.cs:62-76 | See the notes below the table. |
| ErrorDialog.ShowDialog | XrmToolBox.Extensibility/Forms/ErrorDetail.cs:27-34 | No dialog is made without an owner or an exception. Otherwise a fresh, valid, collapsed, topmost dialog shows that exception and keeps the extra info, the allow-new-issue flag and the timestamp it was given; its title is the heading when that is non-empty, "Error Detail" otherwise. |

Notes on the longer rows of the table:

- `ErrorDialog.ShownOutcome`:
  - With a base message and a stack trace, the info box holds that message's summary, with the summary properties above.
  - Otherwise the info box holds the raw exception message.
  - The error-code box changes exactly when there is a fault detail. It then becomes "0x" and canonical digits that parse back to the code modulo 2^32.
  - A null base message leaves the type and message boxes alone.
  - A null base message or a null stack trace leaves the call-stack box alone.
- `ErrorDialog.CopyTextLayout`:
  - The copied text starts with "Error Time: ", the timestamp, a newline and the type.
  - Next comes " (code)" and a newline when the code is non-empty, and the newline alone otherwise.
  - It ends with the message and the call stack, each on a line of its own.
- `ErrorDialog.ErrorDetail.constructor`:
  - It stores its arguments.
  - The title is the heading when that is non-empty, and "Error Detail" otherwise.
  - The text boxes are filled as AddErrorInfo fills empty ones.
  - The dialog starts collapsed (height 200) and valid.

## Left out

- The designer file and `InitializeComponent` are not part of this model.
  - The initial text boxes are taken to be empty and the detail controls hidden.
  - The initial button caption is taken to be "Show Details".
  - "Error Detail" is taken to be the designer's title.
  - The form is taken to start with TopMost set, which the issue button clears (line 157); the constructor's `topMost` clause rests on that.
- `Clipboard.SetText`, `MessageBox.Show`, `Process.Start` and the modal `Form.ShowDialog` are OS and UI side effects.
  - The clipboard text and the URL are returned instead.
  - `ShowDialog` returns the dialog it would show.
- ErrorDialog.ShowDialog takes every argument explicitly. The C# defaults of line 27 (`heading = null`, `extrainfo = null`, `allownewissue = true`) have no counterpart: a caller passes `None`, `None` and `true`.
- `DateTime.Now` and its `"yyyy-MM-dd HH:mm:ss.fff"` formatting: the timestamp is an input string.
- Reflection (`GetType().ToString()` and the executing assembly's version) is not modelled. The type name and the version are inputs.
- The SDK types are modelled as datatypes:
  - `FaultException<OrganizationServiceFault>` is modelled as a message, a 32-bit code and an optional inner fault;
  - `IGitHubPlugin` is modelled as an optional user and repository name.
  - Only the one level of inner fault that the code reads is represented.
- Exceptions thrown inside `AddErrorInfo` are modelled only for the null base message and the null stack trace, which send control to the catch block. Other runtime failures cannot arise in the model.
- IssueLink.CreateNewIssue does not model the `NullReferenceException` that a null `addedtext` or a null `WebApplicationUrl` would raise. Both are plain strings in the model.
- Culture-sensitive comparison is not modelled. `StartsWith("System")` (line 96) and `IndexOf(string)` (lines 102 and 106) compare by the current culture in .NET, and `ToLower()` (line 55) lower-cases by it.
  - The model compares ordinally and folds ASCII letters only.
  - A culture that ignores a character, such as a soft hyphen before "System", makes the original strip a prefix that the model keeps.
  - A culture `IndexOf` that finds nothing where the ordinal `Contains` found the text makes the original call `Substring(0, -1)` and fall back to the raw message.
  - Under a Turkish culture "I" lower-cases to a dotless "ı", so "HTTPS://ORG.DYNAMICS.COM" is an OnPremise deployment there but Online in the model.
- ErrorReport.SummaryProperties proves the absence of the bare word "MetadataCacheDetails" only when "MetadataCacheDetails: " was present.
  - The guard tests for "MetadataCacheDetails: " with the colon and space.
  - A message that holds the word without ": " keeps it, as SummaryKeepsBareMetadataWord shows.
  - So the summary can still hold the bare word; it is absent only when the cut fired.
- IssueLink.StackLinesBecomeBullets is proved only for stack traces whose frames do not themselves contain "   at ". `Replace` is applied to the whole text, so such a frame is rewritten too; FencedBullets states the rewrite of any text piece by piece.
- EscapeBody: its own contract states only that no newline, `&` or space is left and how the length grows. The character mapping is stated by EscapeIsPerCharacter, and EscapeBody is not made to call that lemma because the lemma is stated in terms of EscapeBody.
- ToTypeString: its own contract states that "`1[" and "]" are gone. The value of the rewrite is stated by ToTypeStringOfGeneric for names with one generic argument; names with several or nested "`1[" parts are covered only by the contract's clauses.
- Lone surrogates are not modelled. A Dafny `char` is a Unicode scalar value, so a string holding an unpaired UTF-16 surrogate, which .NET allows, has no counterpart. Indices and slices count characters; they agree with .NET's code-unit indices wherever only their relative order matters, and the one absolute bound, the 50 of line 96, is measured with Utf16Length.
- The prefix strip cuts after the first ':' in the message, not after the ": " that the guard tests for. The model follows the code.
