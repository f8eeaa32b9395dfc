/** The literal rewrites run over each whole raw message before it is split into
    lines (main.py:101-111). */
module PrePass {
  import opened Text

  /** True when none of the six rewritten pieces occurs in `s`. */
  predicate Untouched(s: string) {
    && !IsInfix("\n ", s)       // a folded header line continues on the previous line
    && !IsInfix("Re: ", s)
    && !IsInfix("Fw: ", s)
    && !IsInfix("\n\t", s)      // folded recipient lists
    && !IsInfix(" : ", s)
    && !IsInfix("[IMAGE]", s)
  }

  /** The six `str.replace` calls, applied in order to the whole message (header and
      body alike). Each rewrite shortens or keeps the text, so the message never
      grows; the only character it can introduce is a space; and a message containing
      none of the six pieces comes back unchanged. */
  function Clean(message: string): (r: string)
    ensures |r| <= |message|
    ensures forall c :: c in r ==> c in message || c == ' '
    ensures Untouched(message) ==> r == message
  {
    var t1 := Replace(message, "\n ", " ");
    var t2 := Replace(t1, "Re: ", "");
    var t3 := Replace(t2, "Fw: ", "");
    var t4 := Replace(t3, "\n\t", "");
    var t5 := Replace(t4, " : ", "");
    Replace(t5, "[IMAGE]", "")
  }
}
