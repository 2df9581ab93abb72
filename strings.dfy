/** Character classes and the string operations shared by the Python build script and the browser scripts. */
module Strings {

  /** Python's whitespace for `str` (what `\s` matches and what `str.strip()` removes): the characters for which `str.isspace()` holds. */
  predicate PyIsSpace(c: char)
  {
    c == ' ' || ('\t' <= c <= '\r') || ('\U{1C}' <= c <= '\U{1F}') || c == '\U{85}' || c == '\U{A0}' ||
    c == '\U{1680}' || ('\U{2000}' <= c <= '\U{200A}') || c == '\U{2028}' || c == '\U{2029}' ||
    c == '\U{202F}' || c == '\U{205F}' || c == '\U{3000}'
  }

  /** ECMAScript WhiteSpace and LineTerminator (what `\s` matches and what `String.prototype.trim` removes). */
  predicate JsIsSpace(c: char)
  {
    c == ' ' || ('\t' <= c <= '\r') || c == '\U{A0}' || c == '\U{1680}' || ('\U{2000}' <= c <= '\U{200A}') ||
    c == '\U{2028}' || c == '\U{2029}' || c == '\U{202F}' || c == '\U{205F}' || c == '\U{3000}' || c == '\U{FEFF}'
  }

  /** `\w` restricted to ASCII: letters, digits and underscore. */
  predicate IsWordChar(c: char)
  {
    ('a' <= c <= 'z') || ('A' <= c <= 'Z') || ('0' <= c <= '9') || c == '_'
  }

  predicate All(s: string, p: char -> bool)
  {
    forall k :: 0 <= k < |s| ==> p(s[k])
  }

  /** Python `s.split(sep)` and JavaScript `s.split(sep)` for a one-character separator:
      the maximal separator-free pieces, empty pieces included. */
  function Split(s: string, sep: char): (parts: seq<string>)
    ensures |parts| >= 1
    ensures forall i :: 0 <= i < |parts| ==> sep !in parts[i]
    decreases |s|
  {
    if |s| == 0 then [""]
    else
      var rest := Split(s[1..], sep);
      if s[0] == sep then [""] + rest
      else [[s[0]] + rest[0]] + rest[1..]
  }

  /** Python `sep.join(parts)`. */
  function Join(parts: seq<string>, sep: char): string
  {
    if |parts| == 0 then ""
    else if |parts| == 1 then parts[0]
    else parts[0] + [sep] + Join(parts[1..], sep)
  }

  lemma {:induction false} JoinSplit(s: string, sep: char)
    ensures Join(Split(s, sep), sep) == s
    decreases |s|
  {
    if |s| > 0 {
      var rest := Split(s[1..], sep);
      JoinSplit(s[1..], sep);
      if s[0] == sep {
        assert Split(s, sep) == [""] + rest;
        assert s == [s[0]] + s[1..];
      } else {
        var parts := Split(s, sep);
        assert parts == [[s[0]] + rest[0]] + rest[1..];
        if |rest| == 1 {
          assert s == [s[0]] + rest[0];
        } else {
          assert parts[1..] == rest[1..];
          assert Join(rest, sep) == rest[0] + [sep] + Join(rest[1..], sep);
          assert s == [s[0]] + s[1..];
        }
      }
    }
  }

  /** Splitting a separator-free piece followed by a separator yields that piece first. */
  lemma {:induction false} SplitPiece(a: string, t: string, sep: char)
    requires sep !in a
    ensures Split(a + [sep] + t, sep) == [a] + Split(t, sep)
    decreases |a|
  {
    if |a| == 0 {
      assert a + [sep] + t == [sep] + t;
      assert ([sep] + t)[1..] == t;
    } else {
      SplitPiece(a[1..], t, sep);
      assert (a + [sep] + t)[1..] == a[1..] + [sep] + t;
      assert [a[0]] + a[1..] == a;
    }
  }

  lemma {:induction false} SplitNoSep(a: string, sep: char)
    requires sep !in a
    ensures Split(a, sep) == [a]
    decreases |a|
  {
    if |a| > 0 {
      SplitNoSep(a[1..], sep);
      assert [a[0]] + a[1..] == a;
    }
  }

  /** Splitting undoes joining separator-free pieces. */
  lemma {:induction false} SplitJoin(parts: seq<string>, sep: char)
    requires |parts| >= 1
    requires forall i :: 0 <= i < |parts| ==> sep !in parts[i]
    ensures Split(Join(parts, sep), sep) == parts
    decreases |parts|
  {
    if |parts| == 1 {
      SplitNoSep(parts[0], sep);
    } else {
      SplitJoin(parts[1..], sep);
      SplitPiece(parts[0], Join(parts[1..], sep), sep);
      assert [parts[0]] + parts[1..] == parts;
    }
  }

  lemma {:induction false} JoinAppend(parts: seq<string>, p: string, sep: char)
    requires |parts| >= 1
    ensures Join(parts + [p], sep) == Join(parts, sep) + [sep] + p
    decreases |parts|
  {
    if |parts| > 1 {
      JoinAppend(parts[1..], p, sep);
      assert (parts + [p])[1..] == parts[1..] + [p];
    }
  }

  /** The last piece of `Split(s, sep)` is the suffix of `s` after its last separator. */
  lemma LastPiece(s: string, sep: char)
    ensures var parts := Split(s, sep);
            var last := parts[|parts| - 1];
            sep !in last && |last| <= |s| && last == s[|s| - |last|..] &&
            (|last| < |s| ==> s[|s| - |last| - 1] == sep)
  {
    var parts := Split(s, sep);
    var last := parts[|parts| - 1];
    JoinSplit(s, sep);
    if |parts| > 1 {
      var init := parts[..|parts| - 1];
      assert init + [last] == parts;
      JoinAppend(init, last, sep);
      assert s == Join(init, sep) + [sep] + last;
    }
  }

  /** Python `s.lstrip()` / JavaScript `s.trimStart()` for the whitespace class `ws`. */
  function TrimStart(s: string, ws: char -> bool): string
    decreases |s|
  {
    if |s| > 0 && ws(s[0]) then TrimStart(s[1..], ws) else s
  }

  /** Python `s.rstrip()` / JavaScript `s.trimEnd()` for the whitespace class `ws`. */
  function TrimEnd(s: string, ws: char -> bool): string
    decreases |s|
  {
    if |s| > 0 && ws(s[|s| - 1]) then TrimEnd(s[..|s| - 1], ws) else s
  }

  /** Python `s.strip()` / JavaScript `s.trim()` for the whitespace class `ws`. */
  function Trim(s: string, ws: char -> bool): string
  {
    TrimEnd(TrimStart(s, ws), ws)
  }

  /** `TrimStart` removes exactly the longest all-whitespace prefix. */
  lemma {:induction false} TrimStartShape(s: string, ws: char -> bool)
    ensures var r := TrimStart(s, ws);
            |r| <= |s| && r == s[|s| - |r|..] &&
            (forall k :: 0 <= k < |s| - |r| ==> ws(s[k])) &&
            (|r| > 0 ==> !ws(r[0]))
    decreases |s|
  {
    if |s| > 0 && ws(s[0]) {
      TrimStartShape(s[1..], ws);
    }
  }

  /** `TrimEnd` removes exactly the longest all-whitespace suffix. */
  lemma {:induction false} TrimEndShape(s: string, ws: char -> bool)
    ensures var r := TrimEnd(s, ws);
            |r| <= |s| && r == s[..|r|] &&
            (forall k :: |r| <= k < |s| ==> ws(s[k])) &&
            (|r| > 0 ==> !ws(r[|r| - 1]))
    decreases |s|
  {
    if |s| > 0 && ws(s[|s| - 1]) {
      TrimEndShape(s[..|s| - 1], ws);
    }
  }

  /** A string trims to nothing exactly when every character of it is whitespace. */
  lemma TrimEmpty(s: string, ws: char -> bool)
    ensures Trim(s, ws) == "" <==> All(s, ws)
  {
    var t := TrimStart(s, ws);
    TrimStartShape(s, ws);
    TrimEndShape(t, ws);
    if Trim(s, ws) == "" {
      // `t` is empty: its first character would be whitespace, yet `TrimStart` stops at a non-whitespace one.
      assert |t| == 0;
    } else {
      var r := Trim(s, ws);
      assert !ws(r[0]);
      assert r[0] == t[0];
      assert t[0] == s[|s| - |t|];
    }
  }
}
