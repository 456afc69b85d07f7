/**
 * The exception facts the error dialog reads, and the pure string work it does
 * on them: choosing the base message, summarising it, formatting the fault's
 * error code and normalising the exception's type name.
 */
module ErrorReport {
  import opened Wrappers
  import opened Strings
  import opened HexFormat

  /** OrganizationServiceFault.InnerFault; only its message is read. */
  datatype InnerFault = InnerFault(message: Option<string>)

  /** OrganizationServiceFault: a message, a numeric error code and at most one inner fault. */
  datatype ServiceFault = ServiceFault(message: Option<string>, errorCode: int32, innerFault: Option<InnerFault>)

  /**
   * The run-time type test of the exception: a plain exception, or a
   * FaultException<OrganizationServiceFault> whose Detail may be null.
   */
  datatype ExceptionKind = Plain | OrganizationFault(detail: Option<ServiceFault>)

  /**
   * The parts of an exception the dialog reads. `typeName` is what
   * GetType().ToString() returns; a null StackTrace is None.
   */
  datatype ErrorInfo = ErrorInfo(typeName: string, message: string, stackTrace: Option<string>, kind: ExceptionKind)

  /**
   * The message the summary starts from: the exception's own message, or for
   * an organization service fault the fault's message, or its inner fault's
   * message when there is an inner fault. None stands for a null message.
   */
  function BaseMessage(e: ErrorInfo): Option<string>
  {
    match e.kind
    case Plain => Some(e.message)
    case OrganizationFault(None) => Some(e.message)
    case OrganizationFault(Some(f)) =>
      if f.innerFault.Some? then f.innerFault.value.message else f.message
  }

  /** The inner fault's message wins over the fault's, which wins over the exception's. */
  lemma BaseMessagePrecedence(e: ErrorInfo)
    ensures (e.kind.Plain? || e.kind.detail.None?) ==> BaseMessage(e) == Some(e.message)
    ensures (e.kind.OrganizationFault? && e.kind.detail.Some? && e.kind.detail.value.innerFault.Some?)
      ==> BaseMessage(e) == e.kind.detail.value.innerFault.value.message
    ensures (e.kind.OrganizationFault? && e.kind.detail.Some? && e.kind.detail.value.innerFault.None?)
      ==> BaseMessage(e) == e.kind.detail.value.message
  {
  }

  /** The error-code text: present exactly when there is a fault detail. */
  function ErrorCode(e: ErrorInfo): (r: Option<string>)
    ensures r.Some? <==> e.kind.OrganizationFault? && e.kind.detail.Some?
  {
    match e.kind
    case OrganizationFault(Some(f)) => Some(ErrorCodeText(f.errorCode))
    case _ => None
  }

  /** msg.Split(':')[0]: the text before the first colon, or all of it. */
  function FirstField(s: string): (r: string)
    ensures ':' !in r
    ensures r == s || (|r| < |s| && r == s[..|r|] && s[|r|] == ':')
  {
    var k := IndexOf(s, ":");
    if k >= 0 then
      assert forall j :: 0 <= j < k ==> !Occurs(s, ":", j) && s[j..j + 1] == [s[j]];
      s[..k]
    else
      assert forall j :: 0 <= j < |s| ==> !Occurs(s, ":", j) && s[j..j + 1] == [s[j]];
      s
  }

  /** The index of the first colon of `s` is `k`. */
  predicate FirstColonAt(s: string, k: int)
  {
    0 <= k < |s| && s[k] == ':' && ':' !in s[..k]
  }

  lemma ColonOfSeparator(s: string)
    requires Contains(s, ": ")
    ensures Contains(s, ":")
  {
    var i :| 0 <= i <= |s| - 2 && Occurs(s, ": ", i);
    assert ": " == ":" + " ";
    OccursOfPrefix(s, ":", " ", i);
  }

  /** The first colon of a string that contains one, as IndexOf and Split see it. */
  lemma FirstColon(s: string)
    requires Contains(s, ":")
    ensures FirstColonAt(s, IndexOf(s, ":"))
    ensures FirstField(s) == s[..IndexOf(s, ":")]
  {
    var k := IndexOf(s, ":");
    assert forall j :: 0 <= j < k ==> !Occurs(s, ":", j) && s[j..j + 1] == [s[j]];
    assert s[k..k + 1] == ":";
  }

  /**
   * With the first colon at `k`, some colon lies within the first `n` code
   * units exactly when the text before `k` is shorter than `n` units.
   */
  lemma ColonBeforeFirst(s: string, k: int, n: int)
    requires FirstColonAt(s, k)
    ensures ColonBefore(s, n) <==> Utf16Length(s[..k]) < n
  {
    if ColonBefore(s, n) {
      var c :| 0 <= c < |s| && s[c] == ':' && Utf16Length(s[..c]) < n;
      assert c >= k by {
        assert forall j :: 0 <= j < k ==> s[j] == s[..k][j];
      }
      assert s[..c] == s[..k] + s[k..c];
      Utf16LengthAppend(s[..k], s[k..c]);
    }
  }

  /**
   * Step 1: a message such as "System.Foo.BarException: text" loses everything
   * up to and including its first colon, when it starts with "System",
   * contains ": " and the text before its first colon is shorter than 50
   * UTF-16 code units (the String.Length of Split(':')[0]). What is left is
   * a suffix of the message.
   */
  function StripSystemPrefix(msg: string): string
  {
    if StartsWith(msg, "System") && Contains(msg, ": ") && Utf16Length(FirstField(msg)) < 50 then
      ColonOfSeparator(msg);
      msg[IndexOf(msg, ":") + 1..]
    else
      msg
  }

  /** What the first step leaves is a suffix of the message. */
  lemma StripSystemPrefixIsSuffix(msg: string)
    ensures |StripSystemPrefix(msg)| <= |msg|
    ensures StripSystemPrefix(msg) == msg[|msg| - |StripSystemPrefix(msg)|..]
  {
    if StartsWith(msg, "System") && Contains(msg, ": ") && Utf16Length(FirstField(msg)) < 50 {
      ColonOfSeparator(msg);
      var k := IndexOf(msg, ":");
      assert StripSystemPrefix(msg) == msg[k + 1..];
    }
  }

  /** Some colon of `s` is preceded by fewer than `n` UTF-16 code units. */
  predicate ColonBefore(s: string, n: int)
  {
    exists k :: 0 <= k < |s| && s[k] == ':' && Utf16Length(s[..k]) < n
  }

  /**
   * The prefix is stripped exactly when the message starts with "System",
   * contains ": " and has a colon within its first 50 UTF-16 code units;
   * what is left is then the text after the first colon, and the cut-off
   * head begins with "System".
   * Otherwise the message is unchanged.
   */
  lemma StripSystemPrefixSpec(msg: string)
    ensures StartsWith(msg, "System") && Contains(msg, ": ") && ColonBefore(msg, 50) ==>
              exists k :: FirstColonAt(msg, k) && Utf16Length(msg[..k]) < 50
                          && StartsWith(msg[..k], "System")
                          && StripSystemPrefix(msg) == msg[k + 1..]
    ensures !(StartsWith(msg, "System") && Contains(msg, ": ") && ColonBefore(msg, 50)) ==>
              StripSystemPrefix(msg) == msg
  {
    if StartsWith(msg, "System") && Contains(msg, ": ") {
      ColonOfSeparator(msg);
      var k := IndexOf(msg, ":");
      FirstColon(msg);
      ColonBeforeFirst(msg, k, 50);
      if Utf16Length(msg[..k]) < 50 {
        StripFires(msg, k);
      }
    }
  }

  /** The guard holds with the first colon at `k`: the head up to `k` goes. */
  lemma StripFires(msg: string, k: int)
    requires StartsWith(msg, "System") && Contains(msg, ": ")
    requires FirstColonAt(msg, k) && k == IndexOf(msg, ":") && FirstField(msg) == msg[..k]
    requires Utf16Length(msg[..k]) < 50
    ensures StartsWith(msg[..k], "System") && StripSystemPrefix(msg) == msg[k + 1..]
  {
    assert k >= 6 by {
      assert forall j :: 0 <= j < 6 ==> msg[j] == "System"[j];
    }
    assert msg[..k][..6] == msg[..6];
  }

  /**
   * The guard counts UTF-16 code units: "System" followed by 22 characters
   * outside the Basic Multilingual Plane and then ": x" has its first colon
   * after 28 characters but 50 code units, so the message is kept whole.
   */
  lemma StripKeepsWideHead(e: string)
    requires |e| == 22 && forall i :: 0 <= i < |e| ==> e[i] == '\U{1F600}'
    ensures StripSystemPrefix("System" + e + ": x") == "System" + e + ": x"
  {
    var msg := "System" + e + ": x";
    assert msg[..28] == "System" + e;
    assert FirstColonAt(msg, 28) by {
      assert forall j :: 0 <= j < 28 ==> msg[..28][j] != ':';
    }
    Utf16LengthAppend("System", e);
    assert Utf16Length("System") == 6;
    assert Utf16Length(msg[..28]) == 50;
    ColonBeforeFirst(msg, 28, 50);
    StripSystemPrefixSpec(msg);
  }

  const MetadataTrigger: string := "MetadataCacheDetails: "
  const MetadataWord: string := "MetadataCacheDetails"
  const StackMarker: string := "   at "

  lemma MetadataTriggerHasWord(s: string)
    requires Contains(s, MetadataTrigger)
    ensures Contains(s, MetadataWord)
  {
    var i :| 0 <= i <= |s| - |MetadataTrigger| && Occurs(s, MetadataTrigger, i);
    assert MetadataTrigger == MetadataWord + ": ";
    OccursOfPrefix(s, MetadataWord, ": ", i);
  }

  /** A prefix that stops at the first occurrence of `p` holds no occurrence of `p`. */
  lemma PrefixBeforeFirst(s: string, p: string)
    requires |p| > 0 && Contains(s, p)
    ensures !Contains(s[..IndexOf(s, p)], p)
  {
    var k := IndexOf(s, p);
    if Contains(s[..k], p) {
      var j :| 0 <= j <= k - |p| && Occurs(s[..k], p, j);
      OccursInSlice(s, 0, k, p, j);
    }
  }

  /**
   * Step 2: a message holding "MetadataCacheDetails: " is cut at the first
   * "MetadataCacheDetails". The result is a prefix without the trigger, and
   * without even the bare word when the cut was made.
   */
  function CutAtMetadata(msg: string): (r: string)
    ensures |r| <= |msg| && r == msg[..|r|]
    ensures !Contains(r, MetadataTrigger)
    ensures Contains(msg, MetadataTrigger) ==> !Contains(r, MetadataWord)
    ensures Contains(msg, MetadataTrigger) ==> Occurs(msg, MetadataWord, |r|)
    ensures Contains(msg, MetadataTrigger) ==> forall j :: 0 <= j < |r| ==> !Occurs(msg, MetadataWord, j)
    ensures !Contains(msg, MetadataTrigger) ==> r == msg
  {
    if Contains(msg, MetadataTrigger) then
      MetadataTriggerHasWord(msg);
      PrefixBeforeFirst(msg, MetadataWord);
      var r := msg[..IndexOf(msg, MetadataWord)];
      assert !Contains(r, MetadataTrigger) by {
        if Contains(r, MetadataTrigger) {
          MetadataTriggerHasWord(r);
        }
      }
      r
    else
      msg
  }

  /**
   * Step 3: a message holding "   at " is cut at its first occurrence. The
   * result is a prefix without "   at ".
   */
  function CutAtStackMarker(msg: string): (r: string)
    ensures |r| <= |msg| && r == msg[..|r|]
    ensures !Contains(r, StackMarker)
    ensures Contains(msg, StackMarker) ==> Occurs(msg, StackMarker, |r|)
    ensures forall j :: 0 <= j < |r| ==> !Occurs(msg, StackMarker, j)
    ensures !Contains(msg, StackMarker) ==> r == msg
  {
    if Contains(msg, StackMarker) then
      PrefixBeforeFirst(msg, StackMarker);
      msg[..IndexOf(msg, StackMarker)]
    else
      msg
  }

  /** The short summary shown in the collapsed dialog. */
  function Summarise(msg: string): string
  {
    Trim(CutAtStackMarker(CutAtMetadata(StripSystemPrefix(msg))))
  }

  /**
   * A slice `r` of a prefix `s3` of a prefix `s2` of a suffix `s1` of `msg`
   * is a slice of `msg`, and lacks whatever `s2` or `s3` lacks.
   */
  lemma SlicePipeline(msg: string, s1: string, s2: string, s3: string, r: string, i: int, q: string)
    requires |s1| <= |msg| && s1 == msg[|msg| - |s1|..]
    requires |s2| <= |s1| && s2 == s1[..|s2|]
    requires |s3| <= |s2| && s3 == s2[..|s3|]
    requires Occurs(s3, r, i)
    ensures Occurs(msg, r, |msg| - |s1| + i)
    ensures !Contains(s2, q) ==> !Contains(r, q)
    ensures !Contains(s3, q) ==> !Contains(r, q)
  {
    var a := |msg| - |s1|;
    assert s3 == msg[a..a + |s3|];
    OccursInSlice(msg, a, a + |s3|, r, i);
    assert r == s3[i..i + |r|];
    if !Contains(s2, q) {
      SliceKeepsAbsence(s2, 0, |s3|, q);
      assert s2[0..|s3|] == s3;
    }
    if !Contains(s3, q) {
      SliceKeepsAbsence(s3, i, i + |r|, q);
    }
  }

  /**
   * The summary is a slice of the base message with no white space at either
   * end; it holds neither "MetadataCacheDetails: " nor "   at "; and when the
   * trigger was present it does not even hold the bare word
   * "MetadataCacheDetails".
   */
  lemma SummaryProperties(msg: string)
    ensures exists i :: Occurs(msg, Summarise(msg), i)
    ensures !Contains(Summarise(msg), MetadataTrigger)
    ensures !Contains(Summarise(msg), StackMarker)
    ensures Contains(StripSystemPrefix(msg), MetadataTrigger) ==> !Contains(Summarise(msg), MetadataWord)
    ensures Summarise(msg) == [] || (!IsWhiteSpace(Summarise(msg)[0]) && !IsWhiteSpace(Summarise(msg)[|Summarise(msg)| - 1]))
  {
    var s1 := StripSystemPrefix(msg);
    StripSystemPrefixIsSuffix(msg);
    var s2 := CutAtMetadata(s1);
    var s3 := CutAtStackMarker(s2);
    assert Summarise(msg) == Trim(s3);
    TrimmedPipeline(msg, s1, s2, s3, Contains(s1, MetadataTrigger));
  }

  /** The facts of SummaryProperties, for any suffix, prefix and prefix with the steps' guarantees. */
  lemma TrimmedPipeline(msg: string, s1: string, s2: string, s3: string, triggered: bool)
    requires |s1| <= |msg| && s1 == msg[|msg| - |s1|..]
    requires |s2| <= |s1| && s2 == s1[..|s2|]
    requires |s3| <= |s2| && s3 == s2[..|s3|]
    requires !Contains(s2, MetadataTrigger) && (triggered ==> !Contains(s2, MetadataWord))
    requires !Contains(s3, StackMarker)
    ensures exists i :: Occurs(msg, Trim(s3), i)
    ensures !Contains(Trim(s3), MetadataTrigger) && !Contains(Trim(s3), StackMarker)
    ensures triggered ==> !Contains(Trim(s3), MetadataWord)
  {
    var r := Trim(s3);
    var i := TrimOffset(s3);
    SlicePipeline(msg, s1, s2, s3, r, i, StackMarker);
    SlicePipeline(msg, s1, s2, s3, r, i, MetadataTrigger);
    SlicePipeline(msg, s1, s2, s3, r, i, MetadataWord);
  }

  /**
   * A message without ": ", without "   at " and without white space at
   * either end passes through every step of the summary unchanged.
   */
  lemma SummaryOfCleanMessage(m: string)
    requires !Contains(m, ": ") && !Contains(m, StackMarker)
    requires m == [] || (!IsWhiteSpace(m[0]) && !IsWhiteSpace(m[|m| - 1]))
    ensures Summarise(m) == m
  {
    StripSystemPrefixSpec(m);
    if Contains(m, MetadataTrigger) {
      var i :| 0 <= i <= |m| - |MetadataTrigger| && Occurs(m, MetadataTrigger, i);
      assert Occurs(m[i..i + |MetadataTrigger|], ": ", 20);
      OccursInSlice(m, i, i + |MetadataTrigger|, ": ", 20);
      assert false;
    }
    TrimOfTrimmed(m);
  }

  /** The trigger "MetadataCacheDetails: " is needed: the bare word alone is kept. */
  lemma SummaryKeepsBareMetadataWord()
    ensures Summarise(MetadataWord) == MetadataWord
  {
    FirstCharAbsent(MetadataWord, ": ");
    FirstCharAbsent(MetadataWord, StackMarker);
    SummaryOfCleanMessage(MetadataWord);
  }

  /** A message followed by a stack frame is summarised as the text before the frame. */
  lemma SummaryExample()
    ensures Summarise("boom   at X.Y()") == "boom"
  {
    ExampleUntouched();
    ExampleCut();
    ExampleTrim();
  }

  lemma ExampleTrim()
    ensures Trim("boom") == "boom"
  {
    assert !IsWhiteSpace('b') && !IsWhiteSpace('m');
    TrimOfTrimmed("boom");
  }

  lemma ExampleUntouched()
    ensures CutAtMetadata(StripSystemPrefix("boom   at X.Y()")) == "boom   at X.Y()"
  {
    var m := "boom   at X.Y()";
    StripSystemPrefixSpec(m);
    assert !StartsWith(m, "System") by { assert m[0] != "System"[0]; }
    assert |m| < |MetadataTrigger|;
  }

  lemma ExampleCut()
    ensures CutAtStackMarker("boom   at X.Y()") == "boom"
  {
    var m := "boom   at X.Y()";
    forall j | Occurs(m, StackMarker, j)
      ensures j == 4
    {
      ExampleMarkerAt(j);
    }
    ExampleMarkerPresent();
    CutAtOnlyMarker(m, 4);
    assert m[..4] == "boom";
  }

  lemma ExampleMarkerPresent()
    ensures Occurs("boom   at X.Y()", StackMarker, 4)
  {
  }

  /** When "   at " occurs only at `i`, the message is cut exactly there. */
  lemma CutAtOnlyMarker(m: string, i: int)
    requires Occurs(m, StackMarker, i)
    requires forall j :: Occurs(m, StackMarker, j) ==> j == i
    ensures CutAtStackMarker(m) == m[..i]
  {
    assert Contains(m, StackMarker);
  }

  /** In the example, "   at " can only start at index 4: its 'a' is the only one. */
  lemma ExampleMarkerAt(i: int)
    requires Occurs("boom   at X.Y()", StackMarker, i)
    ensures i == 4
  {
    var m := "boom   at X.Y()";
    assert m[i + 3] == m[i..i + 6][3] == 'a';
    assert forall j | 0 <= j < |m| && j != 7 :: m[j] != 'a';
  }

  /**
   * GetType().ToString() of a generic type with one argument reads
   * "Name`1[Arg]"; it is shown as "Name<Arg>". A name without "`1[" is
   * returned unchanged; otherwise the result holds neither "`1[" nor "]".
   */
  function ToTypeString(typeName: string): (r: string)
    ensures !Contains(typeName, "`1[") ==> r == typeName
    ensures Contains(typeName, "`1[") ==> !Contains(r, "`1[") && !Contains(r, "]")
  {
    if Contains(typeName, "`1[") then
      var withAngle := ReplaceAll(typeName, "`1[", "<");
      var closed := ReplaceAll(withAngle, "]", ">");
      ReplaceRemovesPattern(typeName, "`1[", "<");
      ReplaceRemovesPattern(withAngle, "]", ">");
      assert !Contains(closed, "`1[") by {
        if Contains(closed, "`1[") {
          var i :| 0 <= i <= |closed| - 3 && Occurs(closed, "`1[", i);
          OccurrencePulledBack(withAngle, "]", ">", "`1[", i);
        }
      }
      closed
    else
      typeName
  }

  /**
   * A generic type with one argument, "Name`1[Arg]", is shown as
   * "Name<Arg>" when neither part holds "`1[" or "]".
   */
  lemma ToTypeStringOfGeneric(n: string, a: string)
    requires !Contains(n, "`1[") && !Contains(n, "]")
    requires !Contains(a, "`1[") && !Contains(a, "]")
    ensures ToTypeString(n + "`1[" + a + "]") == n + "<" + a + ">"
  {
    var t := n + "`1[" + a + "]";
    assert t[|n|..|n| + 3] == "`1[";
    assert Occurs(t, "`1[", |n|);
    assert t == n + "`1[" + (a + "]");
    ReplaceAtFirstMatch(n, a + "]", "`1[", "<");
    ReplaceAppend(a, "]", "`1[", "<");
    ReplaceWithoutOccurrence(a, "`1[", "<");
    var x := n + "<" + a;
    assert ReplaceAll(t, "`1[", "<") == x + "]" + [];
    ContainsChar(n, ']');
    ContainsChar(a, ']');
    ContainsChar(x, ']');
    ReplaceAtFirstMatch(x, [], "]", ">");
  }
}
