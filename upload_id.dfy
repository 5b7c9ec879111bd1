/** Reading the upload identifier out of the text `xcrun altool
    --notarize-app` prints (`extract_upload_id`). */
module UploadId {
  import opened Optional
  import opened Text

  /** The two needles, tried in this order: the tool words its answer
      differently on a first and on a repeated upload. */
  const UploadIdNeedle := "The upload ID is"
  const RequestUuidNeedle := "RequestUUID = "
  const Needles := [UploadIdNeedle, RequestUuidNeedle]

  /** The class `[0-9a-zA-Z-]` (ASCII only, as in a Python `str` pattern). */
  predicate IsIdChar(c: char) {
    ('0' <= c <= '9') || ('a' <= c <= 'z') || ('A' <= c <= 'Z') || c == '-'
  }

  /** The pattern `[^0-9a-zA-Z-].` matches at `i`: a character outside the
      class, followed by some character other than a newline. */
  predicate SeparatorAt(t: string, i: nat) {
    i + 1 < |t| && !IsIdChar(t[i]) && t[i + 1] != '\n'
  }

  /** Where the leftmost match of the pattern at or after `from` starts, or
      `|t|` when there is none. */
  function FirstSeparator(t: string, from: nat): (k: nat)
    requires from <= |t|
    ensures from <= k <= |t|
    ensures k < |t| ==> SeparatorAt(t, k)
    ensures forall j: nat :: from <= j < k ==> !SeparatorAt(t, j)
    decreases |t| - from
  {
    if from == |t| || SeparatorAt(t, from) then from else FirstSeparator(t, from + 1)
  }

  /** What the script keeps of the text after a needle: it strips it, keeps
      the first part of `re.split('[^0-9a-zA-Z-].', ...)` and strips that. */
  function IdFrom(segment: string): string {
    var t := Strip(segment);
    Strip(t[..FirstSeparator(t, 0)])
  }

  predicate NonEmpty(needles: seq<string>) {
    forall j :: 0 <= j < |needles| ==> needles[j] != []
  }

  /** What a loop over `needles` returns: the identifier after the first
      needle that occurs, `None` when none does. */
  function IdByNeedles(txt: string, needles: seq<string>): Option<string>
    requires NonEmpty(needles)
  {
    if needles == [] then None
    else if Contains(txt, needles[0]) then Some(IdFrom(SecondPart(txt, needles[0])))
    else IdByNeedles(txt, needles[1..])
  }

  /** The value `extract_upload_id` returns, `None` standing for Python's
      `None`. */
  function UploadIdOf(txt: string): Option<string> {
    IdByNeedles(txt, Needles)
  }

  /** The needle loop of `extract_upload_id`: the first needle that splits
      the text decides the result and ends the loop. */
  method ExtractUploadId(txtOutput: string) returns (ret: Option<string>)
    ensures ret == UploadIdOf(txtOutput)
  {
    ret := None;
    var k := 0;
    while k < |Needles|
      invariant 0 <= k <= |Needles|
      invariant ret.None?
      invariant IdByNeedles(txtOutput, Needles[k..]) == UploadIdOf(txtOutput)
    {
      var needle := Needles[k];
      if Contains(txtOutput, needle) {
        // `txt_output.split(needle)` has a second part.
        var tmp := Strip(SecondPart(txtOutput, needle));
        // `re.split` always yields a first part, so the loop always ends here.
        var head := tmp[..FirstSeparator(tmp, 0)];
        ret := Some(Strip(head));
        break;
      }
      assert Needles[k..][1..] == Needles[k + 1..];
      k := k + 1;
    }
  }

  /** No identifier comes back exactly when none of the needles occurs. */
  lemma {:induction false} IdByNeedlesNone(txt: string, needles: seq<string>)
    requires NonEmpty(needles)
    ensures IdByNeedles(txt, needles).None? <==> forall j :: 0 <= j < |needles| ==> !Contains(txt, needles[j])
  {
    if needles != [] {
      IdByNeedlesNone(txt, needles[1..]);
    }
  }

  /** The first needle that occurs decides the result; the needles after it
      are never consulted. */
  lemma {:induction false} FirstNeedleDecides(txt: string, needles: seq<string>, i: nat)
    requires NonEmpty(needles)
    requires i < |needles| && Contains(txt, needles[i])
    requires forall j :: 0 <= j < i ==> !Contains(txt, needles[j])
    ensures IdByNeedles(txt, needles) == Some(IdFrom(SecondPart(txt, needles[i])))
  {
    if i > 0 {
      FirstNeedleDecides(txt, needles[1..], i - 1);
    }
  }

  /** `extract_upload_id` returns `None` iff neither needle occurs, and the
      second needle matters only when the first is absent. */
  lemma UploadIdCases(txt: string)
    ensures UploadIdOf(txt).None? <==> !Contains(txt, UploadIdNeedle) && !Contains(txt, RequestUuidNeedle)
    ensures Contains(txt, UploadIdNeedle) ==> UploadIdOf(txt) == Some(IdFrom(SecondPart(txt, UploadIdNeedle)))
    ensures !Contains(txt, UploadIdNeedle) && Contains(txt, RequestUuidNeedle)
      ==> UploadIdOf(txt) == Some(IdFrom(SecondPart(txt, RequestUuidNeedle)))
  {
    IdByNeedlesNone(txt, Needles);
    if Contains(txt, UploadIdNeedle) {
      FirstNeedleDecides(txt, Needles, 0);
    } else if Contains(txt, RequestUuidNeedle) {
      FirstNeedleDecides(txt, Needles, 1);
    }
  }

  /** The identifier is a prefix of the stripped text after the needle. It
      runs up to the first character outside `[0-9a-zA-Z-]` that is followed
      by a character other than a newline, less trailing whitespace; so a
      character outside the class is kept when it ends the text or stands
      before a newline. */
  lemma IdFromShape(segment: string)
    ensures var t := Strip(segment); var r := IdFrom(segment); var k := FirstSeparator(t, 0);
      |r| <= k && r == t[..|r|]
      && (forall j :: 0 <= j < |r| ==> IsIdChar(r[j]) || j + 1 == |t| || t[j + 1] == '\n')
      && (forall j :: |r| <= j < k ==> IsSpace(t[j]))
      && (k < |t| ==> !IsIdChar(t[k]) && t[k + 1] != '\n')
      && (|r| == 0 || (!IsSpace(r[0]) && !IsSpace(r[|r| - 1])))
  {
    var t := Strip(segment);
    IdIsStrippedHead(t);
    IdCharsBeforeCut(t);
  }

  /** Cutting a stripped text and stripping again only drops whitespace
      before the cut. */
  lemma IdIsStrippedHead(t: string)
    requires |t| == 0 || !IsSpace(t[0])
    ensures var r := Strip(t[..FirstSeparator(t, 0)]);
      |r| <= FirstSeparator(t, 0) && r == t[..|r|]
      && forall j :: |r| <= j < FirstSeparator(t, 0) ==> IsSpace(t[j])
  {
    var head := t[..FirstSeparator(t, 0)];
    StripOfUnindented(head);
    var r := Strip(head);
    assert r == head[..|r|] == t[..|r|];
    forall j | |r| <= j < |head|
      ensures IsSpace(t[j])
    {
      assert head[j] == t[j];
    }
  }

  /** Before the cut, every character of the class's complement stands last
      or before a newline. */
  lemma IdCharsBeforeCut(t: string)
    ensures forall j :: 0 <= j < FirstSeparator(t, 0) ==> IsIdChar(t[j]) || j + 1 == |t| || t[j + 1] == '\n'
  {
    forall j | 0 <= j < FirstSeparator(t, 0)
      ensures IsIdChar(t[j]) || j + 1 == |t| || t[j + 1] == '\n'
    {
      assert !SeparatorAt(t, j);
    }
  }

  // -------------------------------------------------------------------
  // Worked examples

  /** A needle that starts the text, followed by a rest that does not hold
      it, is split off whole: the second part is the whole rest. */
  lemma NeedleThenRest(needle: string, rest: string)
    requires needle != [] && !Contains(rest, needle)
    ensures Contains(needle + rest, needle)
    ensures SecondPart(needle + rest, needle) == rest
  {
    var txt := needle + rest;
    assert txt[..|needle|] == needle;
    assert OccursAt(txt, needle, 0);
    assert FindFrom(txt, needle, 0) == Some(0);
    var p := SecondPart(txt, needle);
    assert txt[..|needle| + |p|] == needle + p;
    if |needle| + |p| < |txt| {
      OccursInRest(needle, rest, |p|);
      assert false;
    }
    assert txt[..|needle| + |p|] == txt;
  }

  /** An occurrence of the needle past the leading needle lies in the rest. */
  lemma OccursInRest(needle: string, rest: string, k: nat)
    requires OccursAt(needle + rest, needle, |needle| + k)
    ensures k <= |rest| && OccursAt(rest, needle, k)
  {
    var txt := needle + rest;
    assert txt[|needle| + k..|needle| + k + |needle|] == rest[k..k + |needle|];
  }

  /** A needle whose first character is absent does not occur. */
  lemma FirstCharAbsent(s: string, needle: string)
    requires needle != [] && needle[0] !in s
    ensures !Contains(s, needle)
  {
  }

  /** A text without leading or trailing whitespace is its own strip. */
  lemma StripUntouched(s: string)
    requires |s| > 0 && !IsSpace(s[0]) && !IsSpace(s[|s| - 1])
    ensures Strip(s) == s
  {
  }

  /** One leading blank goes with the strip. */
  lemma StripLeadingBlank(s: string)
    requires |s| >= 2 && s[0] == ' ' && !IsSpace(s[1]) && !IsSpace(s[|s| - 1])
    ensures Strip(s) == s[1..]
  {
    assert LeadingSpaces(s[1..]) == 0;
    assert LeadingSpaces(s) == 1;
  }

  /** One trailing blank goes with the strip. */
  lemma StripTrailingBlank(s: string)
    requires |s| >= 2 && !IsSpace(s[0]) && s[|s| - 1] == ' ' && !IsSpace(s[|s| - 2])
    ensures Strip(s) == s[..|s| - 1]
  {
    assert WithoutTrailingSpaces(s[..|s| - 1]) == |s| - 1;
    assert WithoutTrailingSpaces(s) == |s| - 1;
  }

  /** The search for the pattern moves past a position where it does not
      match. */
  lemma SeparatorStep(t: string, from: nat)
    requires from < |t| && !SeparatorAt(t, from)
    ensures FirstSeparator(t, from) == FirstSeparator(t, from + 1)
  {
  }

  /** "ABC123." holds no match of the pattern: its dot is last. */
  lemma NoSeparatorInTrailingDot()
    ensures FirstSeparator("ABC123.", 0) == 7
  {
    var t := "ABC123.";
    SeparatorStep(t, 0); SeparatorStep(t, 1); SeparatorStep(t, 2);
    SeparatorStep(t, 3); SeparatorStep(t, 4); SeparatorStep(t, 5);
    SeparatorStep(t, 6);
  }

  /** In "ABC123. Done" the pattern first matches at the dot. */
  lemma SeparatorAtDot()
    ensures FirstSeparator("ABC123. Done", 0) == 6
  {
    var t := "ABC123. Done";
    SeparatorStep(t, 0); SeparatorStep(t, 1); SeparatorStep(t, 2);
    SeparatorStep(t, 3); SeparatorStep(t, 4); SeparatorStep(t, 5);
    assert SeparatorAt(t, 6);
  }

  /** "XYZ-789" holds no match of the pattern. */
  lemma NoSeparatorInUuid()
    ensures FirstSeparator("XYZ-789", 0) == 7
  {
    var t := "XYZ-789";
    SeparatorStep(t, 0); SeparatorStep(t, 1); SeparatorStep(t, 2);
    SeparatorStep(t, 3); SeparatorStep(t, 4); SeparatorStep(t, 5);
    SeparatorStep(t, 6);
  }

  /** An output that opens with the first needle, which does not occur
      again after it, is decided by it: the id is taken from the rest. */
  lemma FirstNeedleLeads(rest: string)
    requires !Contains(rest, UploadIdNeedle)
    ensures UploadIdOf(UploadIdNeedle + rest) == Some(IdFrom(rest))
  {
    NeedleThenRest(UploadIdNeedle, rest);
    UploadIdCases(UploadIdNeedle + rest);
  }

  /** An output that opens with the second needle, holds the first nowhere
      and the second only at its start, is decided by the second. */
  lemma SecondNeedleLeads(rest: string)
    requires !Contains(RequestUuidNeedle + rest, UploadIdNeedle)
    requires !Contains(rest, RequestUuidNeedle)
    ensures UploadIdOf(RequestUuidNeedle + rest) == Some(IdFrom(rest))
  {
    NeedleThenRest(RequestUuidNeedle, rest);
    UploadIdCases(RequestUuidNeedle + rest);
  }

  /** The usual answer of the tool: the first needle, a blank and an id
      made only of `[0-9a-zA-Z-]` (a UUID, say) gives back exactly that id. */
  lemma PlainIdAfterFirstNeedle(id: string)
    requires |id| > 0 && forall j :: 0 <= j < |id| ==> IsIdChar(id[j])
    ensures UploadIdOf(UploadIdNeedle + " " + id) == Some(id)
  {
    var rest := " " + id;
    assert UploadIdNeedle + " " + id == UploadIdNeedle + rest;
    FirstNeedleNotInPlainId(id);
    FirstNeedleLeads(rest);
    StripLeadingBlank(rest);
    assert rest[1..] == id;
    assert FirstSeparator(id, 0) == |id|;
    assert id[..|id|] == id;
    StripUntouched(id);
  }

  /** The first needle holds a blank past its first character, which a
      blank followed by class characters does not. */
  lemma FirstNeedleNotInPlainId(id: string)
    requires forall j :: 0 <= j < |id| ==> IsIdChar(id[j])
    ensures !Contains(" " + id, UploadIdNeedle)
  {
    var rest := " " + id;
    forall k: nat | k <= |rest|
      ensures !OccursAt(rest, UploadIdNeedle, k)
    {
      if k + |UploadIdNeedle| <= |rest| {
        assert rest[k..k + |UploadIdNeedle|][3] == rest[k + 3] == id[k + 2];
        assert UploadIdNeedle[3] == ' ';
      }
    }
  }

  lemma IdOfTrailingDot()
    ensures IdFrom(" ABC123.") == "ABC123."
  {
    StripLeadingBlank(" ABC123.");
    assert " ABC123."[1..] == "ABC123.";
    NoSeparatorInTrailingDot();
    assert "ABC123."[..7] == "ABC123.";
    StripUntouched("ABC123.");
  }

  lemma IdOfDotThenText()
    ensures IdFrom(" ABC123. Done") == "ABC123"
  {
    StripLeadingBlank(" ABC123. Done");
    assert " ABC123. Done"[1..] == "ABC123. Done";
    SeparatorAtDot();
    assert "ABC123. Done"[..6] == "ABC123";
    StripUntouched("ABC123");
  }

  lemma IdOfPaddedUuid()
    ensures IdFrom("XYZ-789 ") == "XYZ-789"
  {
    StripTrailingBlank("XYZ-789 ");
    assert "XYZ-789 "[..7] == "XYZ-789";
    NoSeparatorInUuid();
    assert "XYZ-789"[..7] == "XYZ-789";
    StripUntouched("XYZ-789");
  }

  lemma IdOfSemicolonFirst()
    ensures IdFrom(";x") == ""
  {
    StripUntouched(";x");
    assert SeparatorAt(";x", 0);
    assert FirstSeparator(";x", 0) == 0;
  }

  /** With the needle at the very end of the output, a final character
      outside the class is kept: the pattern needs a second character to
      match. */
  lemma TrailingDotKept()
    ensures UploadIdOf("The upload ID is ABC123.") == Some("ABC123.")
  {
    assert UploadIdNeedle + " ABC123." == "The upload ID is ABC123.";
    FirstCharAbsent(" ABC123.", UploadIdNeedle);
    FirstNeedleLeads(" ABC123.");
    IdOfTrailingDot();
  }

  /** A character outside the class followed by more text ends the
      identifier. */
  lemma DotBeforeTextCuts()
    ensures UploadIdOf("The upload ID is ABC123. Done") == Some("ABC123")
  {
    assert UploadIdNeedle + " ABC123. Done" == "The upload ID is ABC123. Done";
    FirstCharAbsent(" ABC123. Done", UploadIdNeedle);
    FirstNeedleLeads(" ABC123. Done");
    IdOfDotThenText();
  }

  /** The second needle is used when the first is absent; the trailing
      blank goes with the strip. */
  lemma RequestUuidExample()
    ensures UploadIdOf("RequestUUID = XYZ-789 ") == Some("XYZ-789")
  {
    assert RequestUuidNeedle + "XYZ-789 " == "RequestUUID = XYZ-789 ";
    FirstCharAbsent("RequestUUID = XYZ-789 ", UploadIdNeedle);
    FirstCharAbsent("XYZ-789 ", RequestUuidNeedle);
    SecondNeedleLeads("XYZ-789 ");
    IdOfPaddedUuid();
  }

  /** The identifier can be the empty string: a separator right after the
      needle leaves nothing before it. */
  lemma EmptyIdExample()
    ensures UploadIdOf("RequestUUID = ;x") == Some("")
  {
    assert RequestUuidNeedle + ";x" == "RequestUUID = ;x";
    FirstCharAbsent("RequestUUID = ;x", UploadIdNeedle);
    FirstCharAbsent(";x", RequestUuidNeedle);
    SecondNeedleLeads(";x");
    IdOfSemicolonFirst();
  }
}
