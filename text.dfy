/** The string builtins the audit pipeline relies on: `str.strip()`, `sep.join(xs)`,
    and (as the inverse of joining) splitting on one separator character. */
module Text {

  /** The characters Python's `str.isspace` accepts, which `str.strip()` removes:
      the C0 separators TAB..CR and FS..US, SPACE, NEL, NO-BREAK SPACE and the
      Unicode space separators. */
  predicate IsSpace(c: char) {
    || ('\t' <= c <= '\r')
    || ('\U{1C}' <= c <= ' ')
    || c == '\U{85}'
    || c == '\U{A0}'
    || c == '\U{1680}'
    || ('\U{2000}' <= c <= '\U{200A}')
    || c == '\U{2028}'
    || c == '\U{2029}'
    || c == '\U{202F}'
    || c == '\U{205F}'
    || c == '\U{3000}'
  }

  predicate AllSpace(s: string) {
    forall i :: 0 <= i < |s| ==> IsSpace(s[i])
  }

  /** Neither starts nor ends with whitespace. */
  predicate Trimmed(s: string) {
    |s| == 0 || (!IsSpace(s[0]) && !IsSpace(s[|s| - 1]))
  }

  /** `str.lstrip()`: drops leading whitespace. */
  function TrimLeft(s: string): string {
    if |s| > 0 && IsSpace(s[0]) then TrimLeft(s[1..]) else s
  }

  /** `str.rstrip()`: drops trailing whitespace. */
  function TrimRight(s: string): string {
    if |s| > 0 && IsSpace(s[|s| - 1]) then TrimRight(s[..|s| - 1]) else s
  }

  /** What lstrip leaves is a suffix of the input that does not start with
      whitespace, and all it dropped is whitespace. */
  lemma {:induction false} TrimLeftSpec(s: string)
    ensures var r := TrimLeft(s);
            && |r| <= |s| && r == s[|s| - |r|..]
            && AllSpace(s[..|s| - |r|])
            && (|r| == 0 || !IsSpace(r[0]))
  {
    if |s| > 0 && IsSpace(s[0]) {
      TrimLeftSpec(s[1..]);
      var r := TrimLeft(s);
      assert s[1..][|s| - 1 - |r|..] == s[|s| - |r|..];
      assert forall i :: 1 <= i < |s| - |r| ==> s[i] == s[1..][i - 1];
    }
  }

  /** What rstrip leaves is a prefix of the input that does not end with
      whitespace, and all it dropped is whitespace. */
  lemma {:induction false} TrimRightSpec(s: string)
    ensures var r := TrimRight(s);
            && |r| <= |s| && r == s[..|r|]
            && AllSpace(s[|r|..])
            && (|r| == 0 || !IsSpace(r[|r| - 1]))
  {
    if |s| > 0 && IsSpace(s[|s| - 1]) {
      TrimRightSpec(s[..|s| - 1]);
      var r := TrimRight(s);
      assert s[..|s| - 1][..|r|] == s[..|r|];
      assert forall i :: |r| <= i < |s| - 1 ==> s[i] == s[..|s| - 1][i];
    }
  }

  /** The length of the leading run of whitespace. */
  function Lead(s: string): nat {
    TrimLeftSpec(s);
    |s| - |TrimLeft(s)|
  }

  /** Python's `str.strip()` without arguments. */
  function Strip(s: string): string {
    TrimRight(TrimLeft(s))
  }

  /** Stripping yields the slice of the input between its leading and its
      trailing run of whitespace, and that slice is trimmed. */
  lemma StripSpec(s: string)
    ensures var r := Strip(s);
            && Trimmed(r)
            && Lead(s) + |r| <= |s| && r == s[Lead(s)..Lead(s) + |r|]
            && AllSpace(s[..Lead(s)]) && AllSpace(s[Lead(s) + |r|..])
  {
    var t := TrimLeft(s);
    var i := |s| - |t|;
    var r := TrimRight(t);
    TrimLeftSpec(s);
    TrimRightSpec(t);
    assert Lead(s) == i;
    assert |r| > 0 ==> r[0] == t[0];
    assert s[i..i + |r|] == r;
    assert s[i + |r|..] == t[|r|..];
  }

  lemma {:induction false} TrimLeftSkipsSpace(a: string, t: string)
    requires AllSpace(a)
    ensures TrimLeft(a + t) == TrimLeft(t)
  {
    if |a| > 0 {
      var s := a + t;
      assert s[0] == a[0];
      assert TrimLeft(s) == TrimLeft(s[1..]);
      assert s[1..] == a[1..] + t;
      TrimLeftSkipsSpace(a[1..], t);
    } else {
      assert a + t == t;
    }
  }

  lemma {:induction false} TrimRightSkipsSpace(t: string, b: string)
    requires AllSpace(b)
    ensures TrimRight(t + b) == TrimRight(t)
  {
    if |b| > 0 {
      assert (t + b)[|t + b| - 1] == b[|b| - 1];
      assert (t + b)[..|t + b| - 1] == t + b[..|b| - 1];
      TrimRightSkipsSpace(t, b[..|b| - 1]);
    } else {
      assert t + b == t;
    }
  }

  /** Strip characterised independently: whatever whitespace surrounds a trimmed
      core, stripping gives back exactly that core. Together with Strip's own
      ensures this pins Strip(s) down uniquely. */
  lemma StripUnique(a: string, r: string, b: string)
    requires AllSpace(a) && AllSpace(b) && Trimmed(r)
    ensures Strip(a + r + b) == r
  {
    var s := a + r + b;
    assert s == a + (r + b);
    TrimLeftSkipsSpace(a, r + b);
    assert Strip(s) == TrimRight(TrimLeft(r + b));
    if |r| == 0 {
      assert r + b == b + "";
      TrimLeftSkipsSpace(b, "");
    } else {
      assert (r + b)[0] == r[0];
      assert TrimLeft(r + b) == r + b;
      TrimRightSkipsSpace(r, b);
    }
  }

  lemma StripIdempotent(s: string)
    ensures Strip(Strip(s)) == Strip(s)
  {
    var r := Strip(s);
    StripSpec(s);
    assert "" + r + "" == r;
    StripUnique("", r, "");
  }

  /** Python's `sep.join(xs)`. */
  function Join(sep: string, xs: seq<string>): (r: string)
    ensures |xs| == 0 ==> r == ""
    ensures |xs| == 1 ==> r == xs[0]
  {
    if |xs| == 0 then ""
    else if |xs| == 1 then xs[0]
    else xs[0] + sep + Join(sep, xs[1..])
  }

  lemma {:induction false} JoinSnoc(sep: string, xs: seq<string>, x: string)
    requires |xs| > 0
    ensures Join(sep, xs + [x]) == Join(sep, xs) + sep + x
  {
    if |xs| > 1 {
      assert (xs + [x])[1..] == xs[1..] + [x];
      JoinSnoc(sep, xs[1..], x);
    }
  }

  /** A non-empty join ends with its last element. */
  lemma JoinEndsWithLast(sep: string, xs: seq<string>)
    requires |xs| > 0
    ensures var r := Join(sep, xs); var last := xs[|xs| - 1];
            |last| <= |r| && r[|r| - |last|..] == last
  {
    if |xs| > 1 {
      var init := xs[..|xs| - 1];
      assert xs == init + [xs[|xs| - 1]];
      JoinSnoc(sep, init, xs[|xs| - 1]);
    }
  }

  /** Python's `s.split(sep)` for a one-character separator; the inverse of Join. */
  function Split(sep: char, s: string): (r: seq<string>)
    ensures |r| >= 1
  {
    if |s| == 0 then [""]
    else
      var rest := Split(sep, s[1..]);
      if s[0] == sep then [""] + rest
      else [[s[0]] + rest[0]] + rest[1..]
  }

  lemma {:induction false} SplitWithoutSep(sep: char, a: string)
    requires sep !in a
    ensures Split(sep, a) == [a]
  {
    if |a| > 0 {
      SplitWithoutSep(sep, a[1..]);
      assert [a[0]] + a[1..] == a;
    }
  }

  lemma {:induction false} SplitAtFirstSep(sep: char, a: string, t: string)
    requires sep !in a
    ensures Split(sep, a + [sep] + t) == [a] + Split(sep, t)
  {
    if |a| == 0 {
      assert a + [sep] + t == [sep] + t;
      assert ([sep] + t)[1..] == t;
    } else {
      assert (a + [sep] + t)[1..] == a[1..] + [sep] + t;
      SplitAtFirstSep(sep, a[1..], t);
      assert [a[0]] + a[1..] == a;
    }
  }

  /** Joining lines that contain no separator and splitting again gives the lines back. */
  lemma {:induction false} SplitJoin(sep: char, xs: seq<string>)
    requires |xs| > 0
    requires forall i :: 0 <= i < |xs| ==> sep !in xs[i]
    ensures Split(sep, Join([sep], xs)) == xs
  {
    if |xs| == 1 {
      SplitWithoutSep(sep, xs[0]);
    } else {
      SplitJoin(sep, xs[1..]);
      SplitAtFirstSep(sep, xs[0], Join([sep], xs[1..]));
    }
  }
}
