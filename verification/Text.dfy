/** Splitting of strings, as QString::split and the C string conversion do it; and the alphabet. */
module Text {

  const UPPER := "ABCDEFGHIJKLMNOPQRSTUVWXYZ"
  const LOWER := "abcdefghijklmnopqrstuvwxyz"

  /** The pieces between separators; always at least one, and possibly empty ones. */
  function Split(s: string, sep: char): (parts: seq<string>)
    ensures |parts| >= 1
  {
    if s == "" then [""]
    else
      var rest := Split(s[1..], sep);
      if s[0] == sep then [""] + rest else [[s[0]] + rest[0]] + rest[1..]
  }

  function SkipEmpty(parts: seq<string>): (kept: seq<string>)
    ensures forall p :: p in kept ==> p in parts && p != ""
  {
    if parts == [] then []
    else if parts[0] == "" then SkipEmpty(parts[1..])
    else [parts[0]] + SkipEmpty(parts[1..])
  }

  /** QString::split with SkipEmptyParts. */
  function SplitSkip(s: string, sep: char): seq<string> {
    SkipEmpty(Split(s, sep))
  }

  /** What a constructor from `char const *` keeps of a string. */
  function UntilNul(s: string): string {
    if s == "" || s[0] == '\0' then "" else [s[0]] + UntilNul(s[1..])
  }

  predicate Without(s: string, c: char) {
    c !in s
  }

  lemma {:induction false} SplitOffFirst(a: string, b: string, sep: char)
    requires Without(a, sep)
    ensures Split(a + [sep] + b, sep) == [a] + Split(b, sep)
  {
    var s := a + [sep] + b;
    if a == "" {
      assert s[1..] == b;
    } else {
      assert s[1..] == a[1..] + [sep] + b;
      SplitOffFirst(a[1..], b, sep);
      assert [a[0]] + a[1..] == a;
    }
  }

  lemma {:induction false} SplitOffLast(a: string, sep: char)
    ensures Split(a + [sep], sep) == Split(a, sep) + [""]
  {
    if a == "" {
      assert a + [sep] == [sep] && [sep][1..] == "";
    } else {
      assert (a + [sep])[1..] == a[1..] + [sep];
      SplitOffLast(a[1..], sep);
    }
  }

  lemma {:induction false} SplitWhole(a: string, sep: char)
    requires Without(a, sep)
    ensures Split(a, sep) == [a]
  {
    if a == "" {
    } else {
      SplitWhole(a[1..], sep);
      assert [a[0]] + a[1..] == a;
    }
  }

  /** A piece never holds the separator, nor any character the whole string does not have. */
  lemma {:induction false} PiecesAreFree(s: string, sep: char, other: char)
    ensures forall p :: p in Split(s, sep) ==> Without(p, sep) && (Without(s, other) ==> Without(p, other))
  {
    if s == "" {
    } else {
      PiecesAreFree(s[1..], sep, other);
      var rest := Split(s[1..], sep);
      assert rest[0] in rest && forall p :: p in rest[1..] ==> p in rest;
    }
  }

  lemma {:induction false} UntilNulIsFree(s: string)
    ensures Without(UntilNul(s), '\0')
    ensures Without(s, '\0') ==> UntilNul(s) == s
  {
    if s == "" {
    } else {
      UntilNulIsFree(s[1..]);
    }
  }

  /** The text is cut at its first NUL, if it has one. */
  lemma {:induction false} UntilNulCuts(s: string)
    ensures UntilNul(s) <= s && Without(UntilNul(s), '\0')
    ensures UntilNul(s) == s || s[|UntilNul(s)|] == '\0'
  {
    if s == "" {
    } else {
      UntilNulCuts(s[1..]);
    }
  }

  /** Empty pieces are left out and all others kept, in order. */
  lemma {:induction false} SkipEmptyConcat(a: seq<string>, b: seq<string>)
    ensures SkipEmpty(a + b) == SkipEmpty(a) + SkipEmpty(b)
  {
    if a == [] {
      assert a + b == b;
    } else {
      assert (a + b)[1..] == a[1..] + b;
      SkipEmptyConcat(a[1..], b);
    }
  }

  lemma {:induction false} SkipEmptyCounts(parts: seq<string>, part: string)
    ensures multiset(SkipEmpty(parts))[part] == if part == "" then 0 else multiset(parts)[part]
  {
    if parts == [] {
    } else {
      SkipEmptyCounts(parts[1..], part);
      assert parts == [parts[0]] + parts[1..];
    }
  }
}
