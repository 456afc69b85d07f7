/**
 * Filing a GitHub issue from an error: the issue body built line by line,
 * its percent-escaping, and the "new issue" URL handed to the browser.
 */
module IssueLink {
  import opened Wrappers
  import opened Strings
  import opened ErrorReport

  /** The repository identity a tool exposes by implementing IGitHubPlugin. */
  datatype Repository = Repository(userName: string, repositoryName: string)

  /** The parts of the active connection that the issue body reports. */
  datatype ConnectionDetail = ConnectionDetail(organizationVersion: string, webApplicationUrl: string)

  /** The owning tool: its product name, its GitHub capability and its connection (None = null). */
  datatype Tool = Tool(productName: string, gitHub: Option<Repository>, connection: Option<ConnectionDetail>)

  const DynamicsHost: string := "dynamics.com"

  /** "Online" when the lower-cased web application URL contains "dynamics.com", else "OnPremise". */
  function Deployment(url: string): (r: string)
    ensures r == "Online" || r == "OnPremise"
  {
    if Contains(ToLower(url), DynamicsHost) then "Online" else "OnPremise"
  }

  /** The 12-character window of `url` at `i` reads "dynamics.com" once lower-cased. */
  predicate HostAtIgnoringCase(url: string, i: int)
  {
    0 <= i <= |url| - |DynamicsHost| && ToLower(url[i..i + |DynamicsHost|]) == DynamicsHost
  }

  lemma ToLowerSlice(s: string, i: int, j: int)
    requires 0 <= i <= j <= |s|
    ensures ToLower(s)[i..j] == ToLower(s[i..j])
  {
  }

  /** The deployment is Online exactly when the URL names dynamics.com in any letter case. */
  lemma DeploymentIgnoresCase(url: string)
    ensures Deployment(url) == "Online" <==> exists i :: HostAtIgnoringCase(url, i)
  {
    var low := ToLower(url);
    var n := |DynamicsHost|;
    forall i | 0 <= i <= |url| - n
      ensures Occurs(low, DynamicsHost, i) <==> HostAtIgnoringCase(url, i)
    {
      ToLowerSlice(url, i, i + n);
    }
    if exists i :: HostAtIgnoringCase(url, i) {
      var i :| HostAtIgnoringCase(url, i);
      assert Occurs(low, DynamicsHost, i);
    }
  }

  /** A URL holding "dynamics.com" literally is Online. */
  lemma DeploymentOfLiteralHost(url: string)
    requires Contains(url, DynamicsHost)
    ensures Deployment(url) == "Online"
  {
    var i :| 0 <= i <= |url| - |DynamicsHost| && Occurs(url, DynamicsHost, i);
    assert ToLower(DynamicsHost) == DynamicsHost;
    assert HostAtIgnoringCase(url, i);
    DeploymentIgnoresCase(url);
  }

  /**
   * The escaping applied to the body: newline to %0A, then & to %26, then
   * space to %20. No newline, ampersand or space is left, and each one in the
   * input makes the output two characters longer.
   */
  function EscapeBody(s: string): (r: string)
    ensures !Contains(r, "\n") && !Contains(r, "&") && !Contains(r, " ")
    ensures |r| == |s| + 2 * (Count(s, '\n') + Count(s, '&') + Count(s, ' '))
  {
    var e1 := ReplaceAll(s, "\n", "%0A");
    var e2 := ReplaceAll(e1, "&", "%26");
    var e3 := ReplaceAll(e2, " ", "%20");
    EscapeSteps(s, e1, e2, e3);
    e3
  }

  lemma EscapeSteps(s: string, e1: string, e2: string, e3: string)
    requires e1 == ReplaceAll(s, "\n", "%0A")
    requires e2 == ReplaceAll(e1, "&", "%26")
    requires e3 == ReplaceAll(e2, " ", "%20")
    ensures !Contains(e3, "\n") && !Contains(e3, "&") && !Contains(e3, " ")
    ensures |e3| == |s| + 2 * (Count(s, '\n') + Count(s, '&') + Count(s, ' '))
  {
    EscapeRemovesSpecials(s, e1, e2, e3);
    EscapeLength(s, e1, e2, e3);
  }

  lemma EscapeRemovesSpecials(s: string, e1: string, e2: string, e3: string)
    requires e1 == ReplaceAll(s, "\n", "%0A")
    requires e2 == ReplaceAll(e1, "&", "%26")
    requires e3 == ReplaceAll(e2, " ", "%20")
    ensures !Contains(e3, "\n") && !Contains(e3, "&") && !Contains(e3, " ")
  {
    assert Disjoint("\n", "%0A") && Disjoint("&", "%26") && Disjoint(" ", "%20");
    assert Disjoint("\n", "%26") && Disjoint("\n", "%20") && Disjoint("&", "%20");
    ReplaceRemovesPattern(s, "\n", "%0A");
    ReplaceRemovesPattern(e1, "&", "%26");
    ReplaceRemovesPattern(e2, " ", "%20");
    if Contains(e2, "\n") {
      var i :| 0 <= i <= |e2| - 1 && Occurs(e2, "\n", i);
      OccurrencePulledBack(e1, "&", "%26", "\n", i);
    }
    if Contains(e3, "\n") {
      var i :| 0 <= i <= |e3| - 1 && Occurs(e3, "\n", i);
      OccurrencePulledBack(e2, " ", "%20", "\n", i);
    }
    if Contains(e3, "&") {
      var i :| 0 <= i <= |e3| - 1 && Occurs(e3, "&", i);
      OccurrencePulledBack(e2, " ", "%20", "&", i);
    }
  }

  lemma EscapeLength(s: string, e1: string, e2: string, e3: string)
    requires e1 == ReplaceAll(s, "\n", "%0A")
    requires e2 == ReplaceAll(e1, "&", "%26")
    requires e3 == ReplaceAll(e2, " ", "%20")
    ensures |e3| == |s| + 2 * (Count(s, '\n') + Count(s, '&') + Count(s, ' '))
  {
    CountOfAbsent("%0A", '&');
    CountOfAbsent("%0A", ' ');
    CountOfAbsent("%26", ' ');
    EscapeStep(s, '\n', "%0A", e1);
    EscapeStepKeeps(s, '\n', "%0A", e1, '&');
    EscapeStepKeeps(s, '\n', "%0A", e1, ' ');
    EscapeStep(e1, '&', "%26", e2);
    EscapeStepKeeps(e1, '&', "%26", e2, ' ');
    EscapeStep(e2, ' ', "%20", e3);
  }

  /** One escape step turns each occurrence of `c` into three characters. */
  lemma EscapeStep(x: string, c: char, code: string, y: string)
    requires |code| == 3 && y == ReplaceAll(x, [c], code)
    ensures |y| == |x| + 2 * Count(x, c)
  {
    ReplaceCharLength(x, c, code);
  }

  /** One escape step keeps the count of a character its code does not hold. */
  lemma EscapeStepKeeps(x: string, c: char, code: string, y: string, d: char)
    requires d != c && y == ReplaceAll(x, [c], code) && Count(code, d) == 0
    ensures Count(y, d) == Count(x, d)
  {
    ReplaceCharCount(x, c, code, d);
  }

  /** Escaping works piece by piece. */
  lemma EscapeAppend(a: string, b: string)
    ensures EscapeBody(a + b) == EscapeBody(a) + EscapeBody(b)
  {
    ReplaceAppend(a, b, "\n", "%0A");
    var a1, b1 := ReplaceAll(a, "\n", "%0A"), ReplaceAll(b, "\n", "%0A");
    ReplaceAppend(a1, b1, "&", "%26");
    var a2, b2 := ReplaceAll(a1, "&", "%26"), ReplaceAll(b1, "&", "%26");
    ReplaceAppend(a2, b2, " ", "%20");
  }

  /** A text without newline, ampersand or space is left as it is. */
  lemma EscapeKeepsPlainText(s: string)
    requires !Contains(s, "\n") && !Contains(s, "&") && !Contains(s, " ")
    ensures EscapeBody(s) == s
  {
    ReplaceWithoutOccurrence(s, "\n", "%0A");
    ReplaceWithoutOccurrence(s, "&", "%26");
    ReplaceWithoutOccurrence(s, " ", "%20");
  }

  /** The percent code of one character of the body. */
  function EscapeChar(c: char): string
  {
    if c == '\n' then "%0A" else if c == '&' then "%26" else if c == ' ' then "%20" else [c]
  }

  /** Character-by-character escaping: the reference that the chained replaces meet. */
  function EscapeEach(s: string): string
  {
    if s == [] then [] else EscapeChar(s[0]) + EscapeEach(s[1..])
  }

  /** The three chained replaces escape one character as its percent code. */
  lemma EscapeOneChar(c: char)
    ensures EscapeBody([c]) == EscapeChar(c)
  {
    if c == '\n' {
      EscapeNewline();
    } else if c == '&' {
      EscapeAmpersand();
    } else if c == ' ' {
      EscapeSpace();
    } else {
      ContainsChar([c], '\n');
      ContainsChar([c], '&');
      ContainsChar([c], ' ');
      EscapeKeepsPlainText([c]);
    }
  }

  lemma EscapeNewline()
    ensures EscapeBody("\n") == "%0A"
  {
    assert ReplaceAll("\n", "\n", "%0A") == "%0A" + ReplaceAll([], "\n", "%0A");
    FirstCharAbsent("%0A", "&");
    FirstCharAbsent("%0A", " ");
    ReplaceWithoutOccurrence("%0A", "&", "%26");
    ReplaceWithoutOccurrence("%0A", " ", "%20");
  }

  lemma EscapeAmpersand()
    ensures EscapeBody("&") == "%26"
  {
    FirstCharAbsent("&", "\n");
    ReplaceWithoutOccurrence("&", "\n", "%0A");
    assert ReplaceAll("&", "&", "%26") == "%26" + ReplaceAll([], "&", "%26");
    FirstCharAbsent("%26", " ");
    ReplaceWithoutOccurrence("%26", " ", "%20");
  }

  lemma EscapeSpace()
    ensures EscapeBody(" ") == "%20"
  {
    FirstCharAbsent(" ", "\n");
    FirstCharAbsent(" ", "&");
    ReplaceWithoutOccurrence(" ", "\n", "%0A");
    ReplaceWithoutOccurrence(" ", "&", "%26");
    assert ReplaceAll(" ", " ", "%20") == "%20" + ReplaceAll([], " ", "%20");
  }

  /**
   * Escaping the body by the three chained replaces is escaping it character
   * by character: newline to %0A, ampersand to %26, space to %20, every other
   * character kept.
   */
  lemma {:induction false} EscapeIsPerCharacter(s: string)
    ensures EscapeBody(s) == EscapeEach(s)
    decreases |s|
  {
    if s != [] {
      assert s == [s[0]] + s[1..];
      EscapeAppend([s[0]], s[1..]);
      EscapeOneChar(s[0]);
      EscapeIsPerCharacter(s[1..]);
    } else {
      ReplaceWithoutOccurrence(s, "\n", "%0A");
      ReplaceWithoutOccurrence(s, "&", "%26");
      ReplaceWithoutOccurrence(s, " ", "%20");
    }
  }

  /** "a&b c\nd" is sent as "a%26b%20c%0Ad". */
  lemma EscapeExample()
    ensures EscapeBody("a&b c\nd") == "a%26b%20c%0Ad"
  {
    EscapeIsPerCharacter("a&b c\nd");
    EscapeEachExample();
  }

  lemma EscapeEachExample()
    ensures EscapeEach("a&b c\nd") == "a%26b%20c%0Ad"
  {
    EscapeEachSix('a', '&', 'b', ' ', 'c', '\n', "d");
    assert EscapeChar('a') == "a" && EscapeChar('b') == "b" && EscapeChar('c') == "c";
    assert EscapeEach("d") == "d";
    assert ['a'] + (['&'] + (['b'] + ([' '] + (['c'] + (['\n'] + "d"))))) == "a&b c\nd";
    assert "a" + ("%26" + ("b" + ("%20" + ("c" + ("%0A" + "d"))))) == "a%26b%20c%0Ad";
  }

  /** Six characters in front of `rest`, escaped one at a time. */
  lemma EscapeEachSix(c1: char, c2: char, c3: char, c4: char, c5: char, c6: char, rest: string)
    ensures EscapeEach([c1] + ([c2] + ([c3] + ([c4] + ([c5] + ([c6] + rest))))))
            == EscapeChar(c1) + (EscapeChar(c2) + (EscapeChar(c3) + (EscapeChar(c4)
               + (EscapeChar(c5) + (EscapeChar(c6) + EscapeEach(rest))))))
  {
    var x5 := [c6] + rest;
    var x4 := [c5] + x5;
    var x3 := [c4] + x4;
    var x2 := [c3] + x3;
    var x1 := [c2] + x2;
    EscapeEachCons(c6, rest);
    EscapeEachCons(c5, x5);
    EscapeEachCons(c4, x4);
    EscapeEachCons(c3, x3);
    EscapeEachCons(c2, x2);
    EscapeEachCons(c1, x1);
  }

  lemma EscapeEachCons(c: char, rest: string)
    ensures EscapeEach([c] + rest) == EscapeChar(c) + EscapeEach(rest)
  {
    assert ([c] + rest)[1..] == rest;
  }

  const QueryStart: string := "?body="
  const BodyIntro: string := "[Write any error info to resolve easier]\n\n---\n"
  const Bullet: string := "- "

  /** string.IsNullOrWhiteSpace. */
  predicate IsNullOrWhiteSpace(s: Option<string>)
  {
    s.None? || AllWhiteSpace(s.value)
  }

  /** The fenced extra-information block, present only when there is some. */
  function ExtraInfoBlock(extrainfo: Option<string>): string
  {
    if IsNullOrWhiteSpace(extrainfo) then "" else "\n```\n" + extrainfo.value + "\n```\n---\n"
  }

  function VersionLine(productName: string, version: string): string
  {
    "- " + productName + " Version: " + version + "\n"
  }

  function DeploymentLine(webApplicationUrl: string): string
  {
    "- Deployment: " + Deployment(webApplicationUrl) + "\n"
  }

  /** The DB-version and deployment lines, present only when there is a connection. */
  function ConnectionLines(connection: Option<ConnectionDetail>): string
  {
    match connection
    case None => ""
    case Some(c) => "- DB Version: " + c.organizationVersion + "\n" + DeploymentLine(c.webApplicationUrl)
  }

  /**
   * The issue body before escaping. `version` is the version of the
   * extensibility assembly, read by reflection in the original.
   */
  function IssueBody(tool: Tool, addedtext: string, extrainfo: Option<string>, version: string): string
  {
    BodyIntro
    + ReplaceAll(addedtext, StackMarker, Bullet) + "\n\n---\n"
    + ExtraInfoBlock(extrainfo)
    + VersionLine(tool.productName, version)
    + ConnectionLines(tool.connection)
  }

  /** The query string: "?body=" and the body, escaped together. */
  function IssueQuery(tool: Tool, addedtext: string, extrainfo: Option<string>, version: string): string
  {
    QueryStart + IssueBody(tool, addedtext, extrainfo, version)
  }

  function IssuesPage(g: Repository): string
  {
    "https://github.com/" + g.userName + "/" + g.repositoryName + "/issues/new"
  }

  /** "?body=" goes through the escaping unchanged. */
  lemma EscapeQuery(body: string)
    ensures EscapeBody(QueryStart + body) == QueryStart + EscapeBody(body)
  {
    EscapeAppend(QueryStart, body);
    FirstCharAbsent(QueryStart, "\n");
    FirstCharAbsent(QueryStart, "&");
    FirstCharAbsent(QueryStart, " ");
    EscapeKeepsPlainText(QueryStart);
  }

  /** The URL is the page, "?body=" and the escaped body, and only the part after the page is escaped. */
  lemma IssueUrlShape(page: string, body: string)
    ensures var url := page + EscapeBody(QueryStart + body);
      && StartsWith(url, page + QueryStart)
      && |page| <= |url|
      && url[|page|..] == EscapeBody(QueryStart + body)
      && !Contains(url[|page|..], " ") && !Contains(url[|page|..], "\n") && !Contains(url[|page|..], "&")
  {
    var e := EscapeBody(QueryStart + body);
    var url := page + e;
    EscapeQuery(body);
    assert url == (page + QueryStart) + EscapeBody(body);
    StartsWithAppend(page + QueryStart, EscapeBody(body));
    assert url[|page|..] == e;
  }

  /**
   * CreateNewIssue: the URL given to Process.Start, or None when there is no
   * tool or the tool has no GitHub capability. The URL is the repository's
   * "new issue" page followed by "?body=" and the escaped body, which holds
   * no newline, ampersand or space.
   */
  function CreateNewIssue(tool: Option<Tool>, addedtext: string, extrainfo: Option<string>, version: string): (url: Option<string>)
    ensures url.None? <==> tool.None? || tool.value.gitHub.None?
    ensures url.Some? ==>
      var page := IssuesPage(tool.value.gitHub.value);
      && StartsWith(url.value, page + QueryStart)
      && |page| <= |url.value|
      && url.value[|page|..] == EscapeBody(IssueQuery(tool.value, addedtext, extrainfo, version))
      && !Contains(url.value[|page|..], " ") && !Contains(url.value[|page|..], "\n")
      && !Contains(url.value[|page|..], "&")
  {
    if tool.None? || tool.value.gitHub.None? then
      None
    else
      var page := IssuesPage(tool.value.gitHub.value);
      var body := IssueBody(tool.value, addedtext, extrainfo, version);
      assert IssueQuery(tool.value, addedtext, extrainfo, version) == QueryStart + body;
      IssueUrlShape(page, body);
      Some(page + EscapeBody(QueryStart + body))
  }

  /**
   * The body ends with the version line when there is no connection, and
   * with the DB-version line followed by the deployment line when there is
   * one.
   */
  lemma IssueBodyEnding(tool: Tool, addedtext: string, extrainfo: Option<string>, version: string)
    ensures tool.connection.None? ==> EndsWith(IssueBody(tool, addedtext, extrainfo, version), VersionLine(tool.productName, version))
    ensures tool.connection.Some? ==>
      EndsWith(IssueBody(tool, addedtext, extrainfo, version),
               "- DB Version: " + tool.connection.value.organizationVersion + "\n"
               + DeploymentLine(tool.connection.value.webApplicationUrl))
  {
    var front := BodyIntro
      + ReplaceAll(addedtext, StackMarker, Bullet) + "\n\n---\n"
      + ExtraInfoBlock(extrainfo)
      + VersionLine(tool.productName, version);
    assert IssueBody(tool, addedtext, extrainfo, version) == front + ConnectionLines(tool.connection);
    match tool.connection {
      case None =>
        assert front + "" == front;
        EndsWithAppend(BodyIntro
          + ReplaceAll(addedtext, StackMarker, Bullet) + "\n\n---\n"
          + ExtraInfoBlock(extrainfo), VersionLine(tool.productName, version));
      case Some(c) =>
        var db := "- DB Version: " + c.organizationVersion + "\n";
        var dl := DeploymentLine(c.webApplicationUrl);
        EndsWithAppend(front, db + dl);
    }
  }

  /** A null stack trace reads as the empty string in a concatenation. */
  function StackText(stackTrace: Option<string>): string
  {
    if stackTrace.Some? then stackTrace.value else ""
  }

  /** The fenced type, message and stack trace that CreateNewIssueFromError files. */
  function ErrorBlock(e: ErrorInfo): string
  {
    Fenced(ToTypeString(e.typeName), e.message, StackText(e.stackTrace))
  }

  /** "```\n" + t + ":\n" + m + "\n" + st + "\n```", grouped from the right. */
  function Fenced(t: string, m: string, st: string): string
  {
    "```\n" + (t + (":\n" + (m + ("\n" + (st + "\n```")))))
  }

  function CreateNewIssueFromError(tool: Option<Tool>, e: ErrorInfo, moreinfo: Option<string>, version: string): Option<string>
  {
    CreateNewIssue(tool, ErrorBlock(e), moreinfo, version)
  }

  /** A .NET stack trace: one "   at " line per frame, separated by CR LF. */
  function AtLines(frames: seq<string>): string
  {
    if |frames| == 0 then ""
    else if |frames| == 1 then StackMarker + frames[0]
    else StackMarker + frames[0] + "\r\n" + AtLines(frames[1..])
  }

  /** The same frames as a Markdown list. */
  function BulletLines(frames: seq<string>): string
  {
    if |frames| == 0 then ""
    else if |frames| == 1 then Bullet + frames[0]
    else Bullet + frames[0] + "\r\n" + BulletLines(frames[1..])
  }

  predicate PlainFrames(frames: seq<string>)
  {
    forall k :: 0 <= k < |frames| ==> !Contains(frames[k], StackMarker)
  }

  /** A leading "   at " becomes "- " and the rest is rewritten on its own. */
  lemma ReplaceLeadingMarker(x: string)
    ensures ReplaceAll(StackMarker + x, StackMarker, Bullet) == Bullet + ReplaceAll(x, StackMarker, Bullet)
  {
    var s := StackMarker + x;
    assert s[..|StackMarker|] == StackMarker && s[|StackMarker|..] == x;
  }

  /** One frame line followed by further lines. */
  lemma FrameLineBullet(f: string, rest: string, restBullets: string)
    requires !Contains(f, StackMarker)
    requires ReplaceAll(rest, StackMarker, Bullet) == restBullets
    ensures ReplaceAll(StackMarker + f + "\r\n" + rest, StackMarker, Bullet) == Bullet + f + "\r\n" + restBullets
  {
    var x := f + ("\r\n" + rest);
    AppendAssoc(StackMarker + f, "\r\n", rest);
    AppendAssoc(StackMarker, f, "\r\n" + rest);
    ReplaceLeadingMarker(x);
    ReplaceAppend(f, "\r\n" + rest, StackMarker, Bullet);
    ReplaceWithoutOccurrence(f, StackMarker, Bullet);
    assert Disjoint("\r\n", StackMarker);
    ReplacePrefixFree("\r\n", rest, StackMarker, Bullet);
    AppendAssoc(Bullet + f, "\r\n", restBullets);
    AppendAssoc(Bullet, f, "\r\n" + restBullets);
  }

  /** Every "   at " line of a stack trace becomes a "- " line, and nothing else changes. */
  lemma {:induction false} StackLinesBecomeBullets(frames: seq<string>)
    requires PlainFrames(frames)
    ensures ReplaceAll(AtLines(frames), StackMarker, Bullet) == BulletLines(frames)
    decreases |frames|
  {
    if |frames| == 1 {
      ReplaceLeadingMarker(frames[0]);
      ReplaceWithoutOccurrence(frames[0], StackMarker, Bullet);
    } else if |frames| > 1 {
      var tail := frames[1..];
      assert PlainFrames(tail) by {
        forall k | 0 <= k < |tail| ensures !Contains(tail[k], StackMarker) {
          assert tail[k] == frames[k + 1];
        }
      }
      StackLinesBecomeBullets(tail);
      FrameLineBullet(frames[0], AtLines(tail), BulletLines(tail));
    }
  }

  /**
   * Replace works on the fenced block piece by piece: every piece after the
   * first starts with ':' or a newline, which cannot begin or continue "   at ".
   */
  lemma FencedBullets(t: string, m: string, st: string)
    ensures ReplaceAll(Fenced(t, m, st), StackMarker, Bullet)
            == Fenced(ReplaceAll(t, StackMarker, Bullet), ReplaceAll(m, StackMarker, Bullet), ReplaceAll(st, StackMarker, Bullet))
  {
    var tail := "\n```";
    var p, r := StackMarker, Bullet;
    var x4 := st + tail;
    var x3 := "\n" + x4;
    var x2 := m + x3;
    var x1 := ":\n" + x2;
    var x0 := t + x1;
    assert Disjoint("```\n", p) && Disjoint(":\n", p) && Disjoint("\n", p);
    ReplacePrefixFree("```\n", x0, p, r);
    ReplaceAppend(t, x1, p, r);
    ReplacePrefixFree(":\n", x2, p, r);
    ReplaceAppend(m, x3, p, r);
    ReplacePrefixFree("\n", x4, p, r);
    ReplaceAppend(st, tail, p, r);
    assert ReplaceAll(tail, p, r) == tail;
  }

  /**
   * In the text filed by CreateNewIssueFromError, the stack trace's lines
   * become bullets, and the type name and the message go through the same
   * rewrite of "   at " to "- " (a fault message may embed a server stack
   * trace of its own).
   */
  lemma ErrorBlockBullets(e: ErrorInfo, frames: seq<string>)
    requires e.stackTrace == Some(AtLines(frames)) && PlainFrames(frames)
    ensures ReplaceAll(ErrorBlock(e), StackMarker, Bullet)
            == Fenced(ReplaceAll(ToTypeString(e.typeName), StackMarker, Bullet),
                      ReplaceAll(e.message, StackMarker, Bullet), BulletLines(frames))
  {
    FencedBullets(ToTypeString(e.typeName), e.message, AtLines(frames));
    StackLinesBecomeBullets(frames);
  }
}
