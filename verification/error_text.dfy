/**
  The clean-up `GetWindowsErrorString` applies to the system's message text:
  trailing white space (the message ends in a line break) is removed by
  walking the end-of-message position back while the character before it satisfies
  `isspace`.
 */
module ErrorText {

  /** `isspace` in the "C" locale: space, tab, line feed, vertical tab, form feed, carriage return. */
  predicate IsSpace(ch: char) {
    ch == ' ' || ch == '\t' || ch == '\n' || ch == '\r' || ch as int == 0x0B || ch as int == 0x0C
  }

  /** The message with its trailing white space removed. */
  function TrimTrailingSpace(s: string): (r: string)
    ensures r <= s
    ensures |r| == 0 || !IsSpace(r[|r| - 1])
    ensures forall i :: |r| <= i < |s| ==> IsSpace(s[i])
    decreases |s|
  {
    if |s| > 0 && IsSpace(s[|s| - 1]) then TrimTrailingSpace(s[..|s| - 1]) else s
  }

  /** The result is the only prefix that ends in a non-space (or is empty) and leaves only white space behind. */
  lemma TrimIsUnique(s: string, p: string)
    requires p <= s
    requires |p| == 0 || !IsSpace(p[|p| - 1])
    requires forall i :: |p| <= i < |s| ==> IsSpace(s[i])
    ensures p == TrimTrailingSpace(s)
  {
    var r := TrimTrailingSpace(s);
    // Each prefix ends before any non-space of s that lies beyond the other.
    assert |r| == 0 || !IsSpace(s[|r| - 1]);
    assert |p| == 0 || !IsSpace(s[|p| - 1]);
    assert |p| == |r|;
  }

  /** Trimming an already trimmed message changes nothing. */
  lemma TrimIdempotent(s: string)
    ensures TrimTrailingSpace(TrimTrailingSpace(s)) == TrimTrailingSpace(s)
  {
    var r := TrimTrailingSpace(s);
    TrimIsUnique(r, r);
  }

  /** A message that does not end in white space is left as it is. */
  lemma TrimKeepsCleanText(s: string)
    requires |s| == 0 || !IsSpace(s[|s| - 1])
    ensures TrimTrailingSpace(s) == s
  {
    TrimIsUnique(s, s);
  }

  /** The loop of the program: an end index walked back over white space. */
  method StripTrailingSpace(message: string) returns (result: string)
    ensures result == TrimTrailingSpace(message)
    ensures |result| == 0 || !IsSpace(result[|result| - 1])
  {
    var eom := |message|;
    while eom > 0 && IsSpace(message[eom - 1])
      invariant 0 <= eom <= |message|
      invariant forall i :: eom <= i < |message| ==> IsSpace(message[i])
    {
      eom := eom - 1;
    }
    result := message[..eom];
    TrimIsUnique(message, result);
  }
}
