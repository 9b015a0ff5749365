/** Where in a JSON string body an escape is open, and the secrets that end inside one. */
module Escapes {
  import opened Text

  // ---- The escape automaton ------------------------------------------------------------------

  /** Whether reading s leaves an escape open, when it was open before iff open. */
  function Esc(open: bool, s: string): bool
    decreases |s|
  {
    if s == "" then open else Esc(!open && s[0] == '\\', s[1..])
  }

  lemma {:induction false} EscConcat(open: bool, a: string, b: string)
    ensures Esc(open, a + b) == Esc(Esc(open, a), b)
    decreases |a|
  {
    if a == "" {
      assert a + b == b;
    } else {
      assert (a + b)[1..] == a[1..] + b;
      EscConcat(!open && a[0] == '\\', a[1..], b);
    }
  }

  /** The length of the run of backslashes s ends with. */
  function TrailingRun(s: string): nat {
    if s == "" || s[|s| - 1] != '\\' then 0 else 1 + TrailingRun(s[..|s| - 1])
  }

  /** Counting trailing backslashes decides whether an escape is left open. */
  lemma {:induction false} EscIsParity(s: string)
    ensures Esc(false, s) <==> TrailingRun(s) % 2 == 1
  {
    if s != "" {
      var init, last := s[..|s| - 1], s[|s| - 1];
      assert s == init + [last];
      EscConcat(false, init, [last]);
      assert Esc(Esc(false, init), [last]) == (!Esc(false, init) && last == '\\');
      EscIsParity(init);
    }
  }

  lemma EscClosedByOther(open: bool, s: string)
    requires s != "" && s[|s| - 1] != '\\'
    ensures !Esc(open, s)
  {
    assert s == s[..|s| - 1] + [s[|s| - 1]];
    EscConcat(open, s[..|s| - 1], [s[|s| - 1]]);
  }

  /** Removes a trailing backslash that opens an escape the secret does not include. */
  function TrimPartialEscape(secret: string): (r: string)
    ensures !Esc(false, r)
    ensures r <= secret
    ensures r == secret <==> !Esc(false, secret)
    ensures r != secret ==> secret == r + "\\"
  {
    EscIsParity(secret);
    if TrailingRun(secret) % 2 == 1 then
      EscIsParity(secret[..|secret| - 1]);
      secret[..|secret| - 1]
    else secret
  }

  /** An occurrence of a trimmed secret that starts where no escape is open ends where none is open; the secret as
      reported ends inside an escape exactly when it had to be trimmed. */
  lemma TrimmedEndsOnBoundary(body: string, i: nat, secret: string)
    requires At(body, i, TrimPartialEscape(secret)) && !Esc(false, body[..i])
    ensures !Esc(false, body[..i + |TrimPartialEscape(secret)|])
    ensures At(body, i, secret) ==> (Esc(false, body[..i + |secret|]) <==> TrimPartialEscape(secret) != secret)
  {
    var t := TrimPartialEscape(secret);
    assert body[..i + |t|] == body[..i] + t;
    EscConcat(false, body[..i], t);
    if At(body, i, secret) {
      assert body[..i + |secret|] == body[..i] + secret;
      EscConcat(false, body[..i], secret);
    }
  }
}
