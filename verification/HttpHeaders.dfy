/** Header values as Headers.set takes them (section 2.2.2 of the Fetch standard): a value of bytes,
    without the white space around it, in which no NUL and no line break is left. */
module HttpHeaders {
  import opened Options
  import opened Sequences
  import opened Strings

  predicate IsHttpSpace(c: char) {
    c == '\t' || c == '\n' || c == '\r' || c == ' '
  }

  function StripStart(s: string): string {
    if s != "" && IsHttpSpace(s[0]) then StripStart(s[1..]) else s
  }

  function StripEnd(s: string): (r: string)
    ensures r <= s
  {
    if s != "" && IsHttpSpace(s[|s| - 1]) then StripEnd(s[..|s| - 1]) else s
  }

  predicate AreBytes(s: string) {
    forall i :: 0 <= i < |s| ==> s[i] <= 0xFF as char
  }

  predicate IsSafe(s: string) {
    forall i :: 0 <= i < |s| ==> s[i] != 0 as char && s[i] != '\n' && s[i] != '\r'
  }

  /** The value that is stored, or nothing where a TypeError is thrown. */
  function HeaderValue(s: string): Option<string> {
    var stripped := StripEnd(StripStart(s));
    if AreBytes(s) && IsSafe(stripped) then Some(stripped) else None
  }

  /** What may stand inside a value. */
  predicate IsHeaderText(s: string) {
    AreBytes(s) && IsSafe(s)
  }

  lemma HeaderTextParts(a: string, b: string)
    ensures IsHeaderText(a + b) <==> IsHeaderText(a) && IsHeaderText(b)
  {
    assert forall i :: 0 <= i < |a| ==> (a + b)[i] == a[i];
    assert forall i :: 0 <= i < |b| ==> (a + b)[|a| + i] == b[i];
  }

  lemma {:induction false} HeaderTextJoined(parts: seq<string>, separator: string)
    requires IsHeaderText(separator)
    ensures IsHeaderText(Join(parts, separator)) <==> forall i :: 0 <= i < |parts| ==> IsHeaderText(parts[i])
  {
    if |parts| > 1 {
      HeaderTextJoined(parts[1..], separator);
      HeaderTextParts(parts[0] + separator, Join(parts[1..], separator));
      HeaderTextParts(parts[0], separator);
      assert forall i :: 0 <= i < |parts| - 1 ==> parts[1..][i] == parts[i + 1];
    }
  }

  /** The part of the text that is stored: what stands between the white space at its ends. */
  ghost predicate IsCore(s: string, i: int, j: int) {
    && 0 <= i <= j <= |s|
    && (forall k :: 0 <= k < i || j <= k < |s| ==> s[k] == '\t' || s[k] == '\n' || s[k] == '\r' || s[k] == ' ')
    && (i < j ==> !IsHttpSpace(s[i]) && !IsHttpSpace(s[j - 1]))
  }

  lemma StrippedIsCore(s: string) returns (i: nat, j: nat)
    ensures IsCore(s, i, j) && StripEnd(StripStart(s)) == s[i..j]
  {
    var start := StripStart(s);
    StripStartIsSuffix(s);
    StripEndStops(start);
    StartIsSpace(s);
    var stripped := StripEnd(start);
    i := |s| - |start|;
    j := i + |stripped|;
    assert stripped == start[..|stripped|];
    assert s[i..j] == stripped;
    forall k | j <= k < |s| ensures IsHttpSpace(s[k]) { assert s[k] == start[k - i]; }
    if i < j { assert s[j - 1] == stripped[|stripped| - 1] && s[i] == start[0]; }
  }

  /** A value is refused if a character is no byte, or if a NUL or a line break is left within its ends. */
  lemma HeaderValueMeans(s: string) returns (i: nat, j: nat)
    ensures IsCore(s, i, j)
    ensures HeaderValue(s) ==
            if (forall k :: 0 <= k < |s| ==> s[k] as int <= 255)
               && (forall k :: i <= k < j ==> s[k] as int != 0 && s[k] != '\n' && s[k] != '\r')
            then Some(s[i..j]) else None
  {
    i, j := StrippedIsCore(s);
    SafePart(s, i, j);
  }

  lemma SafePart(s: string, i: nat, j: nat)
    requires i <= j <= |s|
    ensures IsSafe(s[i..j]) <==> forall k :: i <= k < j ==> s[k] as int != 0 && s[k] != '\n' && s[k] != '\r'
  {
    assert forall k :: i <= k < j ==> s[i..j][k - i] == s[k];
    if IsSafe(s[i..j]) {
      forall k | i <= k < j ensures s[k] as int != 0 && s[k] != '\n' && s[k] != '\r' { assert s[i..j][k - i] == s[k]; }
    }
  }

  lemma {:induction false} StartIsSpace(s: string)
    ensures |StripStart(s)| <= |s|
    ensures forall k :: 0 <= k < |s| - |StripStart(s)| ==> IsHttpSpace(s[k])
  {
    if s != "" && IsHttpSpace(s[0]) {
      StartIsSpace(s[1..]);
      assert forall k :: 1 <= k < |s| ==> s[k] == s[1..][k - 1];
    }
  }

  /** A value that is stored once is stored again as it is. */
  lemma HeaderValueTwice(s: string)
    ensures HeaderValue(s).Some? ==> HeaderValue(HeaderValue(s).value) == HeaderValue(s)
  {
    var start := StripStart(s);
    StripStartIsSuffix(s);
    StripEndStops(start);
    var stripped := StripEnd(start);
    assert stripped != "" ==> !IsHttpSpace(stripped[0]) by {
      if stripped != "" { assert stripped[0] == start[0]; }
    }
    assert StripStart(stripped) == stripped;
    assert StripEnd(stripped) == stripped;
  }

  lemma {:induction false} StripStartIsSuffix(s: string)
    ensures var r := StripStart(s);
            && |r| <= |s| && r == s[|s| - |r|..]
            && (r != "" ==> !IsHttpSpace(r[0]))
  {
    if s != "" && IsHttpSpace(s[0]) {
      StripStartIsSuffix(s[1..]);
    }
  }

  lemma {:induction false} StripEndStops(s: string)
    ensures var r := StripEnd(s);
            && (r != "" ==> !IsHttpSpace(r[|r| - 1]))
            && (forall i :: |r| <= i < |s| ==> IsHttpSpace(s[i]))
  {
    if s != "" && IsHttpSpace(s[|s| - 1]) {
      StripEndStops(s[..|s| - 1]);
    }
  }

  /** Stripping stays within the last part unless nothing is left of it. */
  lemma {:induction false} StripEndOfSum(a: string, b: string)
    ensures StripEnd(a + b) == if StripEnd(b) == "" then StripEnd(a) else a + StripEnd(b)
    decreases |b|
  {
    if b == "" {
      assert a + b == a;
    } else if IsHttpSpace(b[|b| - 1]) {
      var front := b[..|b| - 1];
      StripEndOfSum(a, front);
      assert (a + b)[..|a + b| - 1] == a + front;
    } else {
      assert (a + b)[|a + b| - 1] == b[|b| - 1];
    }
  }

  lemma FirstIsKept(s: string)
    requires s != "" && !IsHttpSpace(s[0])
    ensures StripEnd(s) != "" && StripStart(s) == s
  {
    StripEndStops(s);
  }

  /** Nothing but blanks is stripped from the end. */
  ghost predicate OnlyBlanksAtEnd(s: string) {
    forall i :: |StripEnd(s)| <= i < |s| ==> s[i] == ' '
  }

  predicate IsTrimmedAtEnd(s: string) {
    s == "" || !IsHttpSpace(s[|s| - 1])
  }

  lemma BlanksInSum(a: string, b: string)
    requires OnlyBlanksAtEnd(b) && (StripEnd(b) == "" ==> IsTrimmedAtEnd(a))
    ensures OnlyBlanksAtEnd(a + b)
  {
    StripEndOfSum(a, b);
    assert forall i :: 0 <= i < |b| ==> (a + b)[|a| + i] == b[i];
  }

  lemma {:induction false} TrimmedPartsEndInBlanks(parts: seq<string>)
    requires forall i :: 0 <= i < |parts| ==> IsTrimmedAtEnd(parts[i])
    ensures OnlyBlanksAtEnd(Join(parts, " "))
  {
    if |parts| > 1 {
      var rest := Join(parts[1..], " ");
      TrimmedPartsEndInBlanks(parts[1..]);
      BlankBefore(rest);
      BlanksInSum(parts[0], " " + rest);
      Reassociate(parts[0], " ", rest);
    }
  }

  lemma BlankBefore(s: string)
    requires OnlyBlanksAtEnd(s)
    ensures OnlyBlanksAtEnd(" " + s)
  {
    StripEndOfSum(" ", s);
    assert StripEnd(" ") == "" by { assert " "[..0] == ""; }
    assert forall i :: 0 <= i < |s| ==> (" " + s)[1 + i] == s[i];
  }

  /** A value that starts with a visible character and ends in blanks at most is stored exactly when
      all of it is header text. */
  lemma StoredExactlyWhen(s: string)
    requires s != "" && !IsHttpSpace(s[0]) && OnlyBlanksAtEnd(s)
    ensures HeaderValue(s) == if IsHeaderText(s) then Some(StripEnd(s)) else None
  {
    FirstIsKept(s);
    var stripped := StripEnd(s);
    assert IsSafe(stripped) <==> IsSafe(s) by {
      if IsSafe(stripped) {
        forall i | 0 <= i < |s| ensures s[i] != 0 as char && s[i] != '\n' && s[i] != '\r' {
          if i < |stripped| { assert s[i] == stripped[i]; }
        }
      }
      if IsSafe(s) { assert forall i :: 0 <= i < |stripped| ==> stripped[i] == s[i]; }
    }
  }
}
