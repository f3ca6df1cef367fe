/** The Python `str` operations the dashboard uses (`strip`, `lstrip`,
    `lower`, `title`, `split`, `join`, `replace`, the `in` test), on
    `string == seq<char>`. Case mapping is modelled for ASCII letters only. */
module PyStr {
  import opened Seqs

  /** `c.isspace()`: the characters Python treats as whitespace. */
  predicate IsSpace(c: char)
  {
    if c <= ' ' then
      ('\t' <= c <= '\r') || '\U{001C}' <= c
    else if c < '\U{0085}' then
      false
    else
      c == '\U{0085}' || c == '\U{00A0}' || c == '\U{1680}' || ('\U{2000}' <= c <= '\U{200A}')
      || c == '\U{2028}' || c == '\U{2029}' || c == '\U{202F}' || c == '\U{205F}' || c == '\U{3000}'
  }

  /** Neither end of `s` is whitespace: what `strip()` leaves behind. */
  predicate IsStripped(s: string)
  {
    s == [] || (!IsSpace(s[0]) && !IsSpace(s[|s| - 1]))
  }

  /** `s.lstrip()`: drops leading whitespace, and only that. */
  function LStrip(s: string): (r: string)
    ensures |r| <= |s|
    ensures r == [] || !IsSpace(r[0])
    decreases |s|
  {
    if s != [] && IsSpace(s[0]) then LStrip(s[1..]) else s
  }

  /** `s.rstrip()`: drops trailing whitespace, and only that. */
  function RStrip(s: string): (r: string)
    ensures |r| <= |s|
    ensures r == [] || !IsSpace(r[|r| - 1])
    ensures r != [] ==> r[0] == s[0]
    decreases |s|
  {
    if s != [] && IsSpace(s[|s| - 1]) then RStrip(s[..|s| - 1]) else s
  }

  /** `lstrip()` removes a prefix of whitespace only. */
  lemma {:induction false} LStripRemovesSpaceOnly(s: string)
    ensures LStrip(s) == s[|s| - |LStrip(s)|..]
    ensures forall k :: 0 <= k < |s| - |LStrip(s)| ==> IsSpace(s[k])
    decreases |s|
  {
    if s != [] && IsSpace(s[0]) {
      LStripRemovesSpaceOnly(s[1..]);
    }
  }

  /** `rstrip()` removes a suffix of whitespace only. */
  lemma {:induction false} RStripRemovesSpaceOnly(s: string)
    ensures RStrip(s) == s[..|RStrip(s)|]
    ensures forall k :: |RStrip(s)| <= k < |s| ==> IsSpace(s[k])
    decreases |s|
  {
    if s != [] && IsSpace(s[|s| - 1]) {
      RStripRemovesSpaceOnly(s[..|s| - 1]);
    }
  }

  /** `s.strip()`: a stripped infix of `s` that leaves out only whitespace. */
  function Strip(s: string): (r: string)
    ensures IsStripped(r)
    ensures |r| <= |s|
    ensures IsStripped(s) ==> r == s
  {
    RStrip(LStrip(s))
  }

  /** `strip()` adds no character. */
  lemma StripKeepsChar(s: string, c: char)
    ensures c in Strip(s) ==> c in s
  {
    var l := LStrip(s);
    var r := Strip(s);
    LStripRemovesSpaceOnly(s);
    RStripRemovesSpaceOnly(l);
    if c in r {
      var k :| 0 <= k < |r| && r[k] == c;
      assert l[k] == c;
      assert s[|s| - |l| + k] == c;
    }
  }

  /** One leading space goes, and nothing else of a stripped string. */
  lemma StripLeadingSpace(t: string)
    requires t != [] && IsStripped(t)
    ensures Strip(" " + t) == t
  {
    assert (" " + t)[1..] == t;
    assert LStrip(" " + t) == LStrip(t) == t;
    assert Strip(t) == RStrip(t);
  }

  /** `s.lstrip(c)`: drops every leading copy of `c`, not just one. */
  function LStripChar(s: string, c: char): (r: string)
    ensures |r| <= |s|
    ensures r == [] || r[0] != c
    ensures forall k :: 0 <= k < |s| - |r| ==> s[k] == c
    ensures forall d :: d in r ==> d in s
    decreases |s|
  {
    if s != [] && s[0] == c then LStripChar(s[1..], c) else s
  }

  /** What `lstrip(c)` leaves is the input after its leading run of `c`. */
  lemma {:induction false} LStripCharSuffix(s: string, c: char)
    ensures LStripChar(s, c) == s[|s| - |LStripChar(s, c)|..]
    decreases |s|
  {
    if s != [] && s[0] == c {
      LStripCharSuffix(s[1..], c);
    }
  }

  predicate IsAsciiUpper(c: char) { 'A' <= c <= 'Z' }
  predicate IsAsciiLower(c: char) { 'a' <= c <= 'z' }
  predicate IsAsciiLetter(c: char) { IsAsciiUpper(c) || IsAsciiLower(c) }

  function LowerChar(c: char): char
  {
    if IsAsciiUpper(c) then (c as int + 32) as char else c
  }

  function UpperChar(c: char): char
  {
    if IsAsciiLower(c) then (c as int - 32) as char else c
  }

  /** `s.lower()` */
  function Lower(s: string): string
  {
    MapSeq(LowerChar, s)
  }

  /** A string `lower()` leaves unchanged. */
  predicate IsLower(s: string)
  {
    Lower(s) == s
  }

  /** `lower()` is idempotent and its result has no upper-case letter. */
  lemma LowerIsLower(s: string)
    ensures IsLower(Lower(s))
    ensures forall k :: 0 <= k < |s| ==> !IsAsciiUpper(Lower(s)[k])
  {
    assert Lower(Lower(s)) == Lower(s);
  }

  /** `lower()` changes no whitespace, so it keeps a stripped string stripped,
      and it neither adds nor removes a character that is not a letter. */
  lemma LowerKeepsShape(s: string, c: char)
    requires !IsAsciiLetter(c)
    ensures IsStripped(s) ==> IsStripped(Lower(s))
    ensures c in Lower(s) <==> c in s
  {
    if c in s {
      var k :| 0 <= k < |s| && s[k] == c;
      assert Lower(s)[k] == c;
    }
  }

  /** What `lower()` keeps of a token's shape: the result is lower-case, and
      stripped and comma-free when its input is. */
  lemma LowerToken(s: string)
    ensures IsLower(Lower(s))
    ensures IsStripped(s) ==> IsStripped(Lower(s))
    ensures ',' !in s ==> ',' !in Lower(s)
  {
    LowerIsLower(s);
    LowerKeepsShape(s, ',');
  }

  /** A character that is not an upper-case letter, put before a lower-case
      string, leaves it lower-case. */
  lemma LowerCons(c: char, s: string)
    requires !IsAsciiUpper(c) && IsLower(s)
    ensures IsLower([c] + s)
  {
    MapSeqAppend(LowerChar, [c], s);
    assert Lower([c]) == [LowerChar(c)];
  }

  /** `s.title()` for ASCII: a letter is upper-cased when the character before
      it is not a letter and lower-cased when it is; other characters are kept. */
  function Title(s: string): (r: string)
    ensures |r| == |s|
  {
    TitleFrom(s, false)
  }

  /** Title-casing from a position whose preceding character was (`afterLetter`)
      or was not a letter. It changes case only. */
  function TitleFrom(s: string, afterLetter: bool): (r: string)
    ensures |r| == |s|
    ensures forall k :: 0 <= k < |s| ==> LowerChar(r[k]) == LowerChar(s[k])
    decreases |s|
  {
    if s == [] then []
    else
      [TitleChar(s[0], afterLetter)] + TitleFrom(s[1..], IsAsciiLetter(s[0]))
  }

  /** One character of `title()`, given whether the one before it is a letter. */
  function TitleChar(c: char, afterLetter: bool): char
  {
    if !IsAsciiLetter(c) then c else if afterLetter then LowerChar(c) else UpperChar(c)
  }

  /** `title()` upper-cases each letter that starts a run of letters, lower-cases
      every other letter and keeps every other character. */
  lemma TitleCase(s: string)
    ensures forall k :: 0 <= k < |s| ==>
      Title(s)[k] == TitleChar(s[k], k > 0 && IsAsciiLetter(s[k - 1]))
  {
    var t := TitleFrom(s, false);
    assert Title(s) == t;
    TitleFromChars(s, false);
    forall k | 0 <= k < |s|
      ensures t[k] == TitleChar(s[k], k > 0 && IsAsciiLetter(s[k - 1]))
    {
      if k == 0 {
        assert t[0] == TitleChar(s[0], false);
      } else {
        assert t[k] == TitleChar(s[k], IsAsciiLetter(s[k - 1]));
      }
    }
  }

  lemma {:induction false} TitleFromChars(s: string, afterLetter: bool)
    ensures forall k :: 0 <= k < |s| ==>
      TitleFrom(s, afterLetter)[k] == TitleChar(s[k], if k == 0 then afterLetter else IsAsciiLetter(s[k - 1]))
    decreases |s|
  {
    if s != [] {
      var rest := s[1..];
      TitleFromChars(rest, IsAsciiLetter(s[0]));
      var t := TitleFrom(s, afterLetter);
      var u := TitleFrom(rest, IsAsciiLetter(s[0]));
      assert t == [TitleChar(s[0], afterLetter)] + u;
      forall k | 1 <= k < |s|
        ensures t[k] == TitleChar(s[k], IsAsciiLetter(s[k - 1]))
      {
        assert t[k] == u[k - 1];
        assert rest[k - 1] == s[k];
        if k > 1 {
          assert rest[k - 2] == s[k - 1];
        }
      }
    }
  }

  /** Lower-casing a title-cased string gives the lower-cased original, so
      matching against `title().lower()` is matching against `lower()`. */
  lemma LowerOfTitle(s: string)
    ensures Lower(Title(s)) == Lower(s)
  {
    var t := Title(s);
    assert forall k :: 0 <= k < |s| ==> Lower(t)[k] == LowerChar(t[k]) == LowerChar(s[k]) == Lower(s)[k];
  }

  /** `t in s` for strings: `t` occurs in `s` as a contiguous piece. */
  predicate Contains(s: string, t: string)
    decreases |s|
  {
    t <= s || (s != [] && Contains(s[1..], t))
  }

  /** `t` occurs in `s` starting at index `i`. */
  predicate OccursAt(s: string, t: string, i: int)
  {
    0 <= i <= |s| - |t| && s[i..i + |t|] == t
  }

  /** `Contains` agrees with the definition of `t in s` as an occurrence at some index. */
  lemma {:induction false} ContainsAt(s: string, t: string)
    ensures Contains(s, t) <==> exists i :: OccursAt(s, t, i)
    decreases |s|
  {
    if t <= s {
      assert OccursAt(s, t, 0);
    } else if s != [] {
      ContainsAt(s[1..], t);
      if exists i :: OccursAt(s, t, i) {
        var i :| OccursAt(s, t, i);
        assert i != 0;
        assert s[1..][i - 1..i - 1 + |t|] == s[i..i + |t|];
        assert OccursAt(s[1..], t, i - 1);
      }
      if Contains(s[1..], t) {
        var i :| OccursAt(s[1..], t, i);
        assert s[i + 1..i + 1 + |t|] == s[1..][i..i + |t|];
        assert OccursAt(s, t, i + 1);
      }
    }
  }

  /** `s.split(sep)` for a one-character separator: always at least one piece,
      and no piece holds the separator. */
  function Split(s: string, sep: char): (r: seq<string>)
    ensures |r| >= 1
    ensures forall k :: 0 <= k < |r| ==> sep !in r[k]
    decreases |s|
  {
    if s == [] then [""]
    else
      var rest := Split(s[1..], sep);
      if s[0] == sep then [""] + rest
      else [[s[0]] + rest[0]] + rest[1..]
  }

  /** `sep.join(xs)` */
  function Join(sep: string, xs: seq<string>): string
    decreases |xs|
  {
    if |xs| == 0 then "" else if |xs| == 1 then xs[0] else xs[0] + sep + Join(sep, xs[1..])
  }

  /** Joining the pieces of a split gives back the string. */
  lemma {:induction false} JoinOfSplit(s: string, sep: char)
    ensures Join([sep], Split(s, sep)) == s
    decreases |s|
  {
    if s != [] {
      JoinOfSplit(s[1..], sep);
      var rest := Split(s[1..], sep);
      if s[0] == sep {
        assert Split(s, sep) == [""] + rest;
        assert Join([sep], [""] + rest) == "" + [sep] + Join([sep], rest);
      } else if |rest| == 1 {
        assert Split(s, sep) == [[s[0]] + rest[0]];
      } else {
        var pieces := [[s[0]] + rest[0]] + rest[1..];
        assert Split(s, sep) == pieces;
        assert pieces[1..] == rest[1..];
        assert Join([sep], rest) == rest[0] + [sep] + Join([sep], rest[1..]);
        assert Join([sep], pieces) == [s[0]] + rest[0] + [sep] + Join([sep], rest[1..]);
      }
    }
  }

  lemma {:induction false} SplitOfPiece(a: string, sep: char)
    requires sep !in a
    ensures Split(a, sep) == [a]
    decreases |a|
  {
    if a != [] {
      SplitOfPiece(a[1..], sep);
      assert a[0] != sep;
      assert [a[0]] + a[1..] == a;
    }
  }

  lemma {:induction false} SplitAfterPiece(a: string, t: string, sep: char)
    requires sep !in a
    ensures Split(a + [sep] + t, sep) == [a] + Split(t, sep)
    decreases |a|
  {
    var s := a + [sep] + t;
    if a == [] {
      assert s[1..] == t;
    } else {
      assert s[1..] == a[1..] + [sep] + t;
      SplitAfterPiece(a[1..], t, sep);
      assert [a[0]] + a[1..] == a;
    }
  }

  /** Splitting a join of separator-free pieces gives back the pieces. */
  lemma {:induction false} SplitOfJoin(pieces: seq<string>, sep: char)
    requires |pieces| >= 1
    requires forall k :: 0 <= k < |pieces| ==> sep !in pieces[k]
    ensures Split(Join([sep], pieces), sep) == pieces
    decreases |pieces|
  {
    if |pieces| == 1 {
      SplitOfPiece(pieces[0], sep);
    } else {
      SplitOfJoin(pieces[1..], sep);
      SplitAfterPiece(pieces[0], Join([sep], pieces[1..]), sep);
      assert [pieces[0]] + pieces[1..] == pieces;
    }
  }

  /** `s.replace(c, rep)` for a one-character pattern. */
  function ReplaceChar(s: string, c: char, rep: string): (r: string)
    ensures c !in rep ==> c !in r
    ensures c !in s ==> r == s
    decreases |s|
  {
    if s == [] then [] else (if s[0] == c then rep else [s[0]]) + ReplaceChar(s[1..], c, rep)
  }

  /** A character in neither `s` nor `rep` is not in the result. */
  lemma {:induction false} ReplaceCharKeeps(s: string, c: char, rep: string, d: char)
    requires d !in s && d !in rep
    ensures d !in ReplaceChar(s, c, rep)
    decreases |s|
  {
    if s != [] {
      assert d !in s[1..];
      ReplaceCharKeeps(s[1..], c, rep, d);
    }
  }

  lemma {:induction false} ReplaceCharAppend(a: string, b: string, c: char, rep: string)
    ensures ReplaceChar(a + b, c, rep) == ReplaceChar(a, c, rep) + ReplaceChar(b, c, rep)
    decreases |a|
  {
    if a != [] {
      var h := if a[0] == c then rep else [a[0]];
      assert (a + b)[0] == a[0] && (a + b)[1..] == a[1..] + b;
      ReplaceCharAppend(a[1..], b, c, rep);
      assert ReplaceChar(a + b, c, rep) == h + ReplaceChar(a[1..] + b, c, rep);
    } else {
      assert a + b == b;
    }
  }

  /** An occurrence survives lower-casing both strings. */
  lemma LowerOccurs(s: string, t: string, i: int)
    requires OccursAt(s, t, i)
    ensures OccursAt(Lower(s), Lower(t), i)
  {
    assert Lower(s)[i..i + |t|] == Lower(t);
  }
}
