/** The two Python string operations the configuration loader relies on:
    `str.strip()` with no argument and `str.split(sep)` with a one-character
    separator. Strings are sequences of Unicode code points. */
module PyStr {

  /** The characters for which Python 3's `str.isspace()` holds, which is the
      set `str.strip()` removes when called without an argument. */
  predicate IsWhitespace(c: char)
  {
    || ('\t' <= c <= '\r')                    // tab, line feed, vertical tab, form feed, carriage return
    || ('\U{1C}' <= c <= '\U{1F}')            // file, group, record and unit separators
    || c == ' '
    || c == '\U{85}'                          // next line
    || c == '\U{A0}'                          // no-break space
    || c == '\U{1680}'
    || ('\U{2000}' <= c <= '\U{200A}')
    || c == '\U{2028}' || c == '\U{2029}'
    || c == '\U{202F}' || c == '\U{205F}'
    || c == '\U{3000}'
  }

  predicate AllWhitespace(s: string)
  {
    forall k :: 0 <= k < |s| ==> IsWhitespace(s[k])
  }

  /** Neither the first nor the last character is whitespace. */
  predicate Trimmed(s: string)
  {
    s == [] || (!IsWhitespace(s[0]) && !IsWhitespace(s[|s| - 1]))
  }

  /** `r` occurs in `s` with nothing but whitespace on either side of it. */
  predicate Padded(s: string, r: string)
  {
    exists i :: 0 <= i <= |s| - |r| && AllWhitespace(s[..i]) && s[i..i + |r|] == r && AllWhitespace(s[i + |r|..])
  }

  /** `str.lstrip()`: drops the leading whitespace. */
  function TrimStart(s: string): string
    decreases |s|
  {
    if s != [] && IsWhitespace(s[0]) then TrimStart(s[1..]) else s
  }

  /** What `TrimStart` removes is a run of whitespace at the front, and what
      it keeps does not start with whitespace. */
  lemma {:induction false} TrimStartSpec(s: string)
    ensures var r := TrimStart(s);
            && |r| <= |s| && r == s[|s| - |r|..]
            && (forall k :: 0 <= k < |s| - |r| ==> IsWhitespace(s[k]))
            && (r == [] || !IsWhitespace(r[0]))
    decreases |s|
  {
    if s != [] && IsWhitespace(s[0]) {
      var r := TrimStart(s[1..]);
      TrimStartSpec(s[1..]);
      assert TrimStart(s) == r;
      forall k | 1 <= k < |s| - |r|
        ensures IsWhitespace(s[k])
      {
        assert s[k] == s[1..][k - 1];
      }
    }
  }

  /** `str.rstrip()`: drops the trailing whitespace. */
  function TrimEnd(s: string): string
    decreases |s|
  {
    if s != [] && IsWhitespace(s[|s| - 1]) then TrimEnd(s[..|s| - 1]) else s
  }

  /** What `TrimEnd` removes is a run of whitespace at the back, and what it
      keeps does not end with whitespace. */
  lemma {:induction false} TrimEndSpec(s: string)
    ensures var r := TrimEnd(s);
            && |r| <= |s| && r == s[..|r|]
            && (forall k :: |r| <= k < |s| ==> IsWhitespace(s[k]))
            && (r == [] || !IsWhitespace(r[|r| - 1]))
    decreases |s|
  {
    if s != [] && IsWhitespace(s[|s| - 1]) {
      var r := TrimEnd(s[..|s| - 1]);
      TrimEndSpec(s[..|s| - 1]);
      assert TrimEnd(s) == r;
      forall k | |r| <= k < |s| - 1
        ensures IsWhitespace(s[k])
      {
        assert s[k] == s[..|s| - 1][k];
      }
    }
  }

  /** `str.strip()`: the text of `s` without its leading and trailing whitespace. */
  function Strip(s: string): string
  {
    TrimEnd(TrimStart(s))
  }

  /** The stripped text has no whitespace at either end, and sits in `s`
      with only whitespace around it. */
  lemma StripSpec(s: string)
    ensures Trimmed(Strip(s))
    ensures Padded(s, Strip(s))
  {
    var t := TrimStart(s);
    var r := TrimEnd(t);
    TrimStartSpec(s);
    TrimEndSpec(t);
    var i := |s| - |t|;
    assert s[i..i + |r|] == r by { assert t == s[i..]; assert s[i..i + |r|] == t[..|r|]; }
    forall k | i + |r| <= k < |s|
      ensures IsWhitespace(s[k])
    {
      assert s[k] == t[k - i];
    }
    PaddedAt(s, r, i);
  }

  /** `r` at offset `i` of `s`, with whitespace on both sides, is padded. */
  lemma PaddedAt(s: string, r: string, i: nat)
    requires i <= |s| - |r| && s[i..i + |r|] == r
    requires forall k :: 0 <= k < i ==> IsWhitespace(s[k])
    requires forall k :: i + |r| <= k < |s| ==> IsWhitespace(s[k])
    ensures Padded(s, r)
  {
    forall k | 0 <= k < i
      ensures IsWhitespace(s[..i][k])
    {
      assert s[..i][k] == s[k];
    }
    var j := i + |r|;
    forall k | 0 <= k < |s| - j
      ensures IsWhitespace(s[j..][k])
    {
      assert s[j..][k] == s[j + k];
    }
    assert AllWhitespace(s[..i]) && AllWhitespace(s[j..]);
  }

  lemma {:induction false} TrimStartSkips(a: string, u: string)
    requires AllWhitespace(a)
    requires u == [] || !IsWhitespace(u[0])
    ensures TrimStart(a + u) == u
    decreases |a|
  {
    if a != [] {
      assert (a + u)[1..] == a[1..] + u;
      TrimStartSkips(a[1..], u);
    }
  }

  lemma {:induction false} TrimEndSkips(u: string, b: string)
    requires AllWhitespace(b)
    requires u == [] || !IsWhitespace(u[|u| - 1])
    ensures TrimEnd(u + b) == u
    decreases |b|
  {
    if b != [] {
      assert (u + b)[..|u + b| - 1] == u + b[..|b| - 1];
      TrimEndSkips(u, b[..|b| - 1]);
    } else {
      assert u + b == u;
    }
  }

  /** `Strip(s)` is the only trimmed string that sits in `s` between two runs
      of whitespace. */
  lemma StripUnique(a: string, t: string, b: string)
    requires AllWhitespace(a) && AllWhitespace(b) && Trimmed(t)
    ensures Strip(a + t + b) == t
  {
    if t == [] {
      assert a + t + b == (a + b) + [];
      assert AllWhitespace(a + b);
      TrimStartSkips(a + b, []);
    } else {
      assert a + t + b == a + (t + b);
      TrimStartSkips(a, t + b);
      TrimEndSkips(t, b);
    }
  }

  lemma PaddedStrip(s: string, r: string, i: nat)
    requires i <= |s| - |r| && Trimmed(r)
    requires AllWhitespace(s[..i]) && s[i..i + |r|] == r && AllWhitespace(s[i + |r|..])
    ensures Strip(s) == r
  {
    assert s == s[..i] + r + s[i + |r|..];
    StripUnique(s[..i], r, s[i + |r|..]);
  }

  /** Both directions: `r` is the stripped form of `s` exactly when it is
      trimmed and padded by whitespace in `s`. */
  lemma StripCharacterization(s: string, r: string)
    ensures Strip(s) == r <==> Trimmed(r) && Padded(s, r)
  {
    if Strip(s) == r {
      StripSpec(s);
    } else if Trimmed(r) && Padded(s, r) {
      var i :| 0 <= i <= |s| - |r| && AllWhitespace(s[..i]) && s[i..i + |r|] == r && AllWhitespace(s[i + |r|..]);
      PaddedStrip(s, r, i);
    }
  }

  lemma StripIdempotent(s: string)
    ensures Strip(Strip(s)) == Strip(s)
  {
    var r := Strip(s);
    StripSpec(s);
    var none: string := [];
    StripUnique(none, r, none);
    assert none + r + none == r;
  }

  /** Index of the first `sep` in `s`, or `|s|` when there is none (where
      `str.find` reports -1). */
  function IndexOf(s: string, sep: char): (i: nat)
    ensures i <= |s|
    ensures i < |s| ==> s[i] == sep
    ensures forall j :: 0 <= j < i ==> s[j] != sep
    ensures i == |s| <==> sep !in s
    decreases |s|
  {
    if s == [] then 0
    else if s[0] == sep then 0
    else 1 + IndexOf(s[1..], sep)
  }

  /** The first separator is the one at `c` when there is none before it. */
  lemma {:induction false} IndexOfAt(s: string, sep: char, c: nat)
    requires c < |s| && s[c] == sep
    requires forall j :: 0 <= j < c ==> s[j] != sep
    ensures IndexOf(s, sep) == c
    decreases c
  {
    if c > 0 {
      IndexOfAt(s[1..], sep, c - 1);
    }
  }

  /** `s.split(sep)`: the text before the first `sep`, then the split of the
      text after it; a string without `sep` is one field. Empty fields are
      kept. */
  function Split(s: string, sep: char): (r: seq<string>)
    ensures |r| >= 1
    decreases |s|
  {
    var c := IndexOf(s, sep);
    if c == |s| then [s] else [s[..c]] + Split(s[c + 1..], sep)
  }

  /** There are two or more fields exactly when `s` contains the separator,
      and no field contains it. */
  lemma {:induction false} SplitFields(s: string, sep: char)
    ensures |Split(s, sep)| >= 2 <==> sep in s
    ensures forall k :: 0 <= k < |Split(s, sep)| ==> sep !in Split(s, sep)[k]
    decreases |s|
  {
    var c := IndexOf(s, sep);
    if c < |s| {
      var rest := Split(s[c + 1..], sep);
      SplitFields(s[c + 1..], sep);
      assert Split(s, sep) == [s[..c]] + rest;
      assert sep !in s[..c] by {
        forall j | 0 <= j < c
          ensures s[..c][j] != sep
        {
          assert s[..c][j] == s[j];
        }
      }
      forall k | 1 <= k < |Split(s, sep)|
        ensures sep !in Split(s, sep)[k]
      {
        assert Split(s, sep)[k] == rest[k - 1];
      }
    }
  }

  /** `sep.join(fields)`, the inverse of `Split`. */
  function Join(fields: seq<string>, sep: char): (r: string)
    requires |fields| >= 1
    ensures |r| >= |fields| - 1
    decreases |fields|
  {
    if |fields| == 1 then fields[0] else fields[0] + [sep] + Join(fields[1..], sep)
  }

  /** Splitting and joining again gives back the original string. */
  lemma {:induction false} JoinSplit(s: string, sep: char)
    ensures Join(Split(s, sep), sep) == s
    decreases |s|
  {
    var c := IndexOf(s, sep);
    if c < |s| {
      var rest := Split(s[c + 1..], sep);
      JoinSplit(s[c + 1..], sep);
      assert Split(s, sep) == [s[..c]] + rest;
      assert ([s[..c]] + rest)[1..] == rest;
      assert Join(Split(s, sep), sep) == s[..c] + [sep] + Join(rest, sep);
      assert s == s[..c] + [sep] + s[c + 1..];
    }
  }

  lemma SplitNoSep(f: string, sep: char)
    requires sep !in f
    ensures Split(f, sep) == [f]
  {
  }

  /** A separator-free field followed by the separator splits off as one field. */
  lemma SplitField(f: string, t: string, sep: char)
    requires sep !in f
    ensures Split(f + [sep] + t, sep) == [f] + Split(t, sep)
  {
    var s := f + [sep] + t;
    IndexOfAt(s, sep, |f|);
    assert s[..|f|] == f && s[|f| + 1..] == t;
  }

  /** Joining separator-free fields and splitting again gives back the fields. */
  lemma {:induction false} SplitJoin(fields: seq<string>, sep: char)
    requires |fields| >= 1
    requires forall k :: 0 <= k < |fields| ==> sep !in fields[k]
    ensures Split(Join(fields, sep), sep) == fields
    decreases |fields|
  {
    if |fields| == 1 {
      SplitNoSep(fields[0], sep);
    } else {
      SplitJoin(fields[1..], sep);
      SplitField(fields[0], Join(fields[1..], sep), sep);
      assert [fields[0]] + fields[1..] == fields;
    }
  }
}
