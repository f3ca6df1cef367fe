/** The per-user OAuth token file name, `get_token_filename`. */
module TokenFile {
  import opened PyStr

  /** `user_email.replace("@", "_at_").replace(".", "_dot_")`: no `@` and no `.` survive. */
  function SafeEmail(email: string): (r: string)
    ensures '@' !in r && '.' !in r
  {
    var a := ReplaceChar(email, '@', "_at_");
    ReplaceCharKeeps(a, '.', "_dot_", '@');
    ReplaceChar(a, '.', "_dot_")
  }

  /** `f"token_{safe_email}.json"`: the prefix `token_`, a middle free of `@`
      and `.`, and the suffix `.json`. */
  function TokenFilename(email: string): (r: string)
    ensures |r| >= 11 && r[..6] == "token_" && r[|r| - 5..] == ".json"
    ensures '@' !in r[6..|r| - 5] && '.' !in r[6..|r| - 5]
  {
    var safe := SafeEmail(email);
    var r := "token_" + safe + ".json";
    assert r[6..|r| - 5] == safe;
    r
  }

  /** Reference definition: one pass that rewrites `@` and `.` side by side. */
  function Escape(email: string): string
    decreases |email|
  {
    if email == [] then []
    else
      (if email[0] == '@' then "_at_" else if email[0] == '.' then "_dot_" else [email[0]])
      + Escape(email[1..])
  }

  /** The two chained `replace` calls do the same as the one-pass rewrite,
      because `_at_` contains no `.` for the second call to touch. */
  lemma {:induction false} SafeEmailIsEscape(email: string)
    ensures SafeEmail(email) == Escape(email)
    decreases |email|
  {
    if email != [] {
      SafeEmailIsEscape(email[1..]);
      var head := if email[0] == '@' then "_at_" else [email[0]];
      assert ReplaceChar(email, '@', "_at_") == head + ReplaceChar(email[1..], '@', "_at_");
      ReplaceCharAppend(head, ReplaceChar(email[1..], '@', "_at_"), '.', "_dot_");
      if email[0] == '@' {
        assert ReplaceChar("_at_", '.', "_dot_") == "_at_";
      } else {
        assert ReplaceChar([email[0]], '.', "_dot_")
            == (if email[0] == '.' then "_dot_" else [email[0]]) + ReplaceChar([], '.', "_dot_");
      }
    }
  }

  /** Reads `_at_` back as `@` and `_dot_` back as `.`. */
  function Unescape(s: string): string
    decreases |s|
  {
    if s == [] then []
    else if "_at_" <= s then "@" + Unescape(s[4..])
    else if "_dot_" <= s then "." + Unescape(s[5..])
    else [s[0]] + Unescape(s[1..])
  }

  lemma {:induction false} UnescapeEscape(email: string)
    requires '_' !in email
    ensures Unescape(Escape(email)) == email
    decreases |email|
  {
    if email != [] {
      UnescapeEscape(email[1..]);
      var rest := Escape(email[1..]);
      var e := Escape(email);
      if email[0] == '@' {
        assert e == "_at_" + rest;
        assert "_at_" <= e && e[4..] == rest;
        assert Unescape(e) == "@" + Unescape(rest);
      } else if email[0] == '.' {
        assert e == "_dot_" + rest;
        assert e[1] == 'd';
        assert !("_at_" <= e);
        assert "_dot_" <= e && e[5..] == rest;
        assert Unescape(e) == "." + Unescape(rest);
      } else {
        assert e == [email[0]] + rest;
        assert e[0] != '_';
        assert e[1..] == rest;
        assert Unescape(e) == [email[0]] + Unescape(rest);
      }
      assert [email[0]] + email[1..] == email;
    }
  }

  /** Two addresses without `_` never share a token file. */
  lemma FilenameInjective(e1: string, e2: string)
    requires '_' !in e1 && '_' !in e2
    requires TokenFilename(e1) == TokenFilename(e2)
    ensures e1 == e2
  {
    var f := TokenFilename(e1);
    assert SafeEmail(e1) == f[6..|f| - 5] == SafeEmail(e2);
    SafeEmailIsEscape(e1);
    SafeEmailIsEscape(e2);
    UnescapeEscape(e1);
    UnescapeEscape(e2);
  }

  /** Once `_` is allowed the rewrite is not injective: an address with `@`
      and the one spelling it `_at_` (`a@b` and `a_at_b`) are given the same
      token file. */
  lemma FilenameCollision(x: string, y: string)
    requires '@' !in x + y && '.' !in x + y
    ensures x + "@" + y != x + "_at_" + y
    ensures TokenFilename(x + "@" + y) == TokenFilename(x + "_at_" + y)
  {
    var at := x + "@" + y;
    var spelled := x + "_at_" + y;
    assert |at| < |spelled|;
    assert '@' !in x && '@' !in y && '.' !in x && '.' !in y;
    assert ReplaceChar(at, '@', "_at_") == spelled by {
      ReplaceCharAppend(x + "@", y, '@', "_at_");
      ReplaceCharAppend(x, "@", '@', "_at_");
      assert ReplaceChar("@", '@', "_at_") == "_at_";
    }
    assert '@' !in spelled && '.' !in spelled;
    assert SafeEmail(at) == spelled;
    assert SafeEmail(spelled) == spelled;
  }
}
