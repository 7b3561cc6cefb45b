/** The errors the tool raises, and a result type that carries them. */
module Errors {

  /** The two exceptions the core can raise. */
  datatype Error =
    | IndexError            // `line.split('"')[1]` on a `.url` line without a double quote
    | UnsupportedUrlFormat  // `get_base` on a URL without a `#`

  datatype Result<+T> = Ok(value: T) | Err(error: Error)
}

/**
  The small part of Python's `str` that the tool uses: `strip()`,
  `startswith`, `split(sep)` with a one-character separator and slicing
  `s[:n]`.
 */
module Text {

  /**
    The characters `strip()` removes: those for which `str.isspace()` holds,
    namely tab to carriage return, the four ASCII separators 0x1C-0x1F, the
    space, and the Unicode spaces and line or paragraph separators.
   */
  predicate IsSpace(c: char) {
    || '\t' <= c <= '\r'
    || '\U{001C}' <= c <= ' '
    || c == '\U{0085}' || c == '\U{00A0}' || c == '\U{1680}'
    || '\U{2000}' <= c <= '\U{200A}'
    || c == '\U{2028}' || c == '\U{2029}' || c == '\U{202F}' || c == '\U{205F}' || c == '\U{3000}'
  }

  /** `s` with its leading whitespace removed. */
  function TrimStart(s: string): (r: string)
    ensures |r| <= |s|
  {
    if s != [] && IsSpace(s[0]) then TrimStart(s[1..]) else s
  }

  /** `TrimStart(s)` is the suffix of `s` left once its leading whitespace is cut away. */
  lemma {:induction false} TrimStartSpec(s: string)
    ensures var r := TrimStart(s);
            && r == s[|s| - |r|..]
            && (forall k :: 0 <= k < |s| - |r| ==> IsSpace(s[k]))
            && (r != [] ==> !IsSpace(r[0]))
  {
    if s != [] && IsSpace(s[0]) {
      TrimStartSpec(s[1..]);
    }
  }

  /** `s` with its trailing whitespace removed. */
  function TrimEnd(s: string): (r: string)
    ensures |r| <= |s|
  {
    if s != [] && IsSpace(s[|s| - 1]) then TrimEnd(s[..|s| - 1]) else s
  }

  /** `TrimEnd(s)` is the prefix of `s` left once its trailing whitespace is cut away. */
  lemma {:induction false} TrimEndSpec(s: string)
    ensures var r := TrimEnd(s);
            && r == s[..|r|]
            && (forall k :: |r| <= k < |s| ==> IsSpace(s[k]))
            && (r != [] ==> !IsSpace(r[|r| - 1]))
  {
    if s != [] && IsSpace(s[|s| - 1]) {
      TrimEndSpec(s[..|s| - 1]);
    }
  }

  /** Python's `s.strip()`. */
  function Strip(s: string): (r: string)
    ensures |r| <= |s|
  {
    TrimEnd(TrimStart(s))
  }

  /**
    `Strip(s)` is the run of `s` that neither starts nor ends with
    whitespace, found by cutting away whitespace only.
   */
  lemma StripSpec(s: string)
    ensures var r := Strip(s);
            && (r != [] ==> !IsSpace(r[0]) && !IsSpace(r[|r| - 1]))
            && exists i :: 0 <= i <= |s| && StrippedAt(s, r, i)
  {
    var t := TrimStart(s);
    var r := TrimEnd(t);
    var i := |s| - |t|;
    TrimStartSpec(s);
    TrimEndSpec(t);
    assert r == s[i..i + |r|];
    assert forall k :: i + |r| <= k < |s| ==> s[k] == t[k - i];
    assert StrippedAt(s, r, i);
  }

  /** `r` is `s[i..]` cut short, with only whitespace cut away on either side. */
  ghost predicate StrippedAt(s: string, r: string, i: nat) {
    && i + |r| <= |s|
    && r == s[i..i + |r|]
    && (forall k :: 0 <= k < i ==> IsSpace(s[k]))
    && (forall k :: i + |r| <= k < |s| ==> IsSpace(s[k]))
  }

  /** Python's `s.startswith(prefix)`. */
  predicate StartsWith(s: string, prefix: string) {
    prefix <= s
  }

  /** The index of the first `d` in `s`, or `|s|` when there is none. */
  function IndexOf(s: string, d: char): (i: nat)
    ensures i <= |s|
    ensures i < |s| ==> s[i] == d
    ensures forall k :: 0 <= k < i ==> s[k] != d
  {
    if s == [] || s[0] == d then 0 else 1 + IndexOf(s[1..], d)
  }

  /**
    Python's `s.split(d)` for a one-character separator: the fields between
    the occurrences of `d`, always at least one.
   */
  function Split(s: string, d: char): (r: seq<string>)
    ensures |r| >= 1
    decreases |s|
  {
    var i := IndexOf(s, d);
    if i == |s| then [s] else [s[..i]] + Split(s[i + 1..], d)
  }

  /** No field of a split holds the separator. */
  lemma {:induction false} SplitFieldsFree(s: string, d: char)
    ensures forall k :: 0 <= k < |Split(s, d)| ==> d !in Split(s, d)[k]
    decreases |s|
  {
    var i := IndexOf(s, d);
    if i < |s| {
      SplitFieldsFree(s[i + 1..], d);
      assert Split(s, d) == [s[..i]] + Split(s[i + 1..], d);
    }
  }

  /**
    The first two fields of a split: the text before the first `d`, and,
    when there is a `d` at all, the text after it up to the next `d` or the
    end.
   */
  lemma SplitFirstFields(s: string, d: char)
    ensures |Split(s, d)| >= 2 <==> d in s
    ensures Split(s, d)[0] == s[..IndexOf(s, d)]
    ensures d in s ==> var t := s[IndexOf(s, d) + 1..]; Split(s, d)[1] == t[..IndexOf(t, d)]
  {
    var i := IndexOf(s, d);
    if i < |s| {
      var t := s[i + 1..];
      assert Split(s, d)[1] == Split(t, d)[0];
    } else {
      assert s[..i] == s;
    }
  }

  /** Python's `d.join(parts)`. */
  function Join(parts: seq<string>, d: char): string
    requires |parts| >= 1
  {
    if |parts| == 1 then parts[0] else parts[0] + [d] + Join(parts[1..], d)
  }

  /** Joining the fields of a split gives back the original text. */
  lemma {:induction false} JoinSplit(s: string, d: char)
    ensures Join(Split(s, d), d) == s
    decreases |s|
  {
    var i := IndexOf(s, d);
    if i < |s| {
      var t := s[i + 1..];
      var parts := Split(s, d);
      assert parts == [s[..i]] + Split(t, d);
      assert parts[1..] == Split(t, d);
      JoinSplit(t, d);
      assert Join(parts, d) == s[..i] + [d] + t;
      assert s == s[..i] + [d] + t;
    }
  }

  /** The first `d` of `a + [d] + b` is the one after `a` when `a` has none. */
  lemma {:induction false} IndexOfAfter(a: string, d: char, b: string)
    requires d !in a
    ensures IndexOf(a + [d] + b, d) == |a|
  {
    var s := a + [d] + b;
    assert s[|a|] == d;
    assert forall k :: 0 <= k < |a| ==> s[k] == a[k];
  }

  /** The first field of `a + d + rest` is `a` when `a` has no `d`; the others are those of `rest`. */
  lemma SplitAfter(a: string, d: char, rest: string)
    requires d !in a
    ensures Split(a + [d] + rest, d) == [a] + Split(rest, d)
  {
    var s := a + [d] + rest;
    IndexOfAfter(a, d, rest);
    assert s[..|a|] == a;
    assert s[|a| + 1..] == rest;
  }

  /** Field 1 of `a + d + b + d + c` is `b` when neither `a` nor `b` holds `d`. */
  lemma SplitSecondField(a: string, b: string, c: string, d: char)
    requires d !in a && d !in b
    ensures |Split(a + [d] + b + [d] + c, d)| >= 2
    ensures Split(a + [d] + b + [d] + c, d)[1] == b
  {
    assert a + [d] + b + [d] + c == a + [d] + (b + [d] + c);
    SplitAfter(a, d, b + [d] + c);
    SplitAfter(b, d, c);
  }

  /** Splitting a join of separator-free fields gives back the fields. */
  lemma {:induction false} SplitJoin(parts: seq<string>, d: char)
    requires |parts| >= 1
    requires forall k :: 0 <= k < |parts| ==> d !in parts[k]
    ensures Split(Join(parts, d), d) == parts
  {
    if |parts| == 1 {
      assert IndexOf(parts[0], d) == |parts[0]|;
    } else {
      SplitAfter(parts[0], d, Join(parts[1..], d));
      SplitJoin(parts[1..], d);
      assert parts == [parts[0]] + parts[1..];
    }
  }

  /** Python's slice `s[:n]`: at most `n` characters, taken from the front. */
  function Take(s: string, n: nat): (r: string)
    ensures r <= s
    ensures |r| == if |s| < n then |s| else n
  {
    if |s| <= n then s else s[..n]
  }
}
