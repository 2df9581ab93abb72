/** The `{{ key.path }}` placeholders of build.py: finding them (`find_placeholders`), substituting them
    (`replace_placeholders`), and checking them against the data (`validate_placeholders`,
    `find_unused_keys`).

    The pattern `\{\{\s*([\w.]+)\s*\}\}` (build.py:56) is matched by a deterministic scanner: the three
    character classes `\s`, `[\w.]` and `}` are pairwise disjoint, so at any position the regex has at most
    one match, found by skipping whitespace, taking the longest run of key characters, skipping whitespace
    and requiring `}}`. Like `re.findall` and `re.sub`, the scan restarts after a match and otherwise
    moves on by one character. */
module Placeholders {
  import opened Wrappers
  import opened Strings
  import opened SiteData

  /** A character of the key group `[\w.]`. */
  predicate IsKeyChar(c: char)
  {
    IsWordChar(c) || c == '.'
  }

  /** A text the key group can capture: a non-empty run of `[\w.]`. */
  predicate IsKey(key: string)
  {
    |key| > 0 && All(key, IsKeyChar)
  }

  /** A match of the pattern spanning `s[i..c + 2]`: `{{`, whitespace `s[i + 2..a]`, the key `s[a..b]`,
      whitespace `s[b..c]`, `}}`. */
  predicate MatchesWith(s: string, i: nat, a: nat, b: nat, c: nat)
  {
    i + 2 <= a < b <= c && c + 2 <= |s| && s[i] == '{' && s[i + 1] == '{' &&
    (forall k :: i + 2 <= k < a ==> PyIsSpace(s[k])) &&
    (forall k :: a <= k < b ==> IsKeyChar(s[k])) &&
    (forall k :: b <= k < c ==> PyIsSpace(s[k])) &&
    s[c] == '}' && s[c + 1] == '}'
  }

  /** A match: where it ends and the text of its group 1. */
  datatype Match = Match(end: nat, key: string)

  /** Where the matcher is after `{{`: in the leading whitespace, in the key that began at `start`, or in
      the trailing whitespace after the key `start..stop`. */
  datatype Phase = Leading | InKey(start: nat) | Trailing(start: nat, stop: nat)

  predicate PhaseBefore(phase: Phase, j: nat)
  {
    match phase
    case Leading => true
    case InKey(a) => a < j
    case Trailing(a, b) => a < b <= j
  }

  function Rank(phase: Phase): nat
  {
    match phase case Leading => 2 case InKey(_) => 1 case Trailing(_, _) => 0
  }

  /** The rest of the match from position `j` in the given phase. */
  function MatchRest(s: string, j: nat, phase: Phase): (m: Option<Match>)
    requires j <= |s| && PhaseBefore(phase, j)
    ensures m.Some? ==> j + (if phase.Leading? then 3 else 2) <= m.value.end <= |s|
    decreases |s| - j, Rank(phase)
  {
    match phase
    case Leading =>
      if j < |s| && PyIsSpace(s[j]) then MatchRest(s, j + 1, Leading)
      else if j < |s| && IsKeyChar(s[j]) then MatchRest(s, j + 1, InKey(j))
      else None
    case InKey(a) =>
      if j < |s| && IsKeyChar(s[j]) then MatchRest(s, j + 1, InKey(a))
      else MatchRest(s, j, Trailing(a, j))
    case Trailing(a, b) =>
      if j < |s| && PyIsSpace(s[j]) then MatchRest(s, j + 1, Trailing(a, b))
      else if j + 2 <= |s| && s[j] == '}' && s[j + 1] == '}' then Some(Match(j + 2, s[a..b]))
      else None
  }

  /** The match of the pattern that starts at position `i`, if any. */
  function MatchAt(s: string, i: nat): (m: Option<Match>)
    requires i <= |s|
    ensures m.Some? ==> i + 5 <= m.value.end <= |s|
  {
    if i + 2 <= |s| && s[i] == '{' && s[i + 1] == '{' then MatchRest(s, i + 2, Leading) else None
  }

  lemma {:induction false} TrailingSound(s: string, j: nat, a: nat, b: nat) returns (c: nat)
    requires j <= |s| && a < b <= j && MatchRest(s, j, Trailing(a, b)).Some?
    ensures j <= c && c + 2 <= |s| && s[c] == '}' && s[c + 1] == '}'
    ensures forall k :: j <= k < c ==> PyIsSpace(s[k])
    ensures MatchRest(s, j, Trailing(a, b)) == Some(Match(c + 2, s[a..b]))
    decreases |s| - j
  {
    if j < |s| && PyIsSpace(s[j]) {
      c := TrailingSound(s, j + 1, a, b);
    } else {
      c := j;
    }
  }

  lemma {:induction false} KeySound(s: string, j: nat, a: nat) returns (b: nat, c: nat)
    requires j <= |s| && a < j && MatchRest(s, j, InKey(a)).Some?
    ensures j <= b <= c && c + 2 <= |s| && s[c] == '}' && s[c + 1] == '}'
    ensures forall k :: j <= k < b ==> IsKeyChar(s[k])
    ensures forall k :: b <= k < c ==> PyIsSpace(s[k])
    ensures MatchRest(s, j, InKey(a)) == Some(Match(c + 2, s[a..b]))
    decreases |s| - j
  {
    if j < |s| && IsKeyChar(s[j]) {
      b, c := KeySound(s, j + 1, a);
    } else {
      b := j;
      c := TrailingSound(s, j, a, j);
    }
  }

  lemma {:induction false} LeadingSound(s: string, j: nat) returns (a: nat, b: nat, c: nat)
    requires j <= |s| && MatchRest(s, j, Leading).Some?
    ensures j <= a < b <= c && c + 2 <= |s| && s[c] == '}' && s[c + 1] == '}'
    ensures forall k :: j <= k < a ==> PyIsSpace(s[k])
    ensures forall k :: a <= k < b ==> IsKeyChar(s[k])
    ensures forall k :: b <= k < c ==> PyIsSpace(s[k])
    ensures MatchRest(s, j, Leading) == Some(Match(c + 2, s[a..b]))
    decreases |s| - j
  {
    if j < |s| && PyIsSpace(s[j]) {
      a, b, c := LeadingSound(s, j + 1);
    } else {
      a := j;
      b, c := KeySound(s, j + 1, j);
    }
  }

  /** What the scanner finds is a match of the pattern. */
  lemma MatchAtSound(s: string, i: nat)
    requires i <= |s| && MatchAt(s, i).Some?
    ensures exists a: nat, b: nat, c: nat :: MatchesWith(s, i, a, b, c) &&
                              MatchAt(s, i).value == Match(c + 2, s[a..b])
  {
    var a, b, c := LeadingSound(s, i + 2);
    assert MatchesWith(s, i, a, b, c);
  }

  lemma {:induction false} TrailingComplete(s: string, j: nat, a: nat, b: nat, c: nat)
    requires a < b <= j <= c && c + 2 <= |s| && s[c] == '}' && s[c + 1] == '}'
    requires forall k :: j <= k < c ==> PyIsSpace(s[k])
    ensures MatchRest(s, j, Trailing(a, b)) == Some(Match(c + 2, s[a..b]))
    decreases c - j
  {
    if j < c {
      TrailingComplete(s, j + 1, a, b, c);
    } else {
      assert !PyIsSpace(s[j]);
    }
  }

  lemma {:induction false} KeyComplete(s: string, j: nat, a: nat, b: nat, c: nat)
    requires a < j <= b <= c && c + 2 <= |s| && s[c] == '}' && s[c + 1] == '}'
    requires forall k :: j <= k < b ==> IsKeyChar(s[k])
    requires forall k :: b <= k < c ==> PyIsSpace(s[k])
    ensures MatchRest(s, j, InKey(a)) == Some(Match(c + 2, s[a..b]))
    decreases b - j
  {
    if j < b {
      KeyComplete(s, j + 1, a, b, c);
    } else {
      assert !IsKeyChar(s[j]) by {
        if j < c {
          assert PyIsSpace(s[j]);
        }
      }
      TrailingComplete(s, j, a, j, c);
    }
  }

  lemma {:induction false} LeadingComplete(s: string, j: nat, a: nat, b: nat, c: nat)
    requires j <= a < b <= c && c + 2 <= |s| && s[c] == '}' && s[c + 1] == '}'
    requires forall k :: j <= k < a ==> PyIsSpace(s[k])
    requires forall k :: a <= k < b ==> IsKeyChar(s[k])
    requires forall k :: b <= k < c ==> PyIsSpace(s[k])
    ensures MatchRest(s, j, Leading) == Some(Match(c + 2, s[a..b]))
    decreases a - j
  {
    if j < a {
      LeadingComplete(s, j + 1, a, b, c);
    } else {
      assert IsKeyChar(s[j]);
      assert !PyIsSpace(s[j]);
      KeyComplete(s, j + 1, j, b, c);
    }
  }

  /** Every match of the pattern at `i` is the one the scanner finds: the regex cannot match there in two ways. */
  lemma MatchAtComplete(s: string, i: nat, a: nat, b: nat, c: nat)
    requires MatchesWith(s, i, a, b, c)
    ensures MatchAt(s, i) == Some(Match(c + 2, s[a..b]))
  {
    LeadingComplete(s, i + 2, a, b, c);
  }

  /** The content cut into what the scan sees: a character passed over, or a whole match. */
  datatype Piece = Text(c: char) | Placeholder(raw: string, key: string)

  /** The pieces of `s[i..]`, left to right. */
  function Scan(s: string, i: nat): (pieces: seq<Piece>)
    requires i <= |s|
    decreases |s| - i
  {
    if i == |s| then []
    else match MatchAt(s, i)
      case Some(m) => [Placeholder(s[i..m.end], m.key)] + Scan(s, m.end)
      case None => [Text(s[i])] + Scan(s, i + 1)
  }

  function Pieces(content: string): seq<Piece>
  {
    Scan(content, 0)
  }

  /** The text the pieces were cut from. */
  function Raw(pieces: seq<Piece>): string
  {
    if pieces == [] then ""
    else (match pieces[0] case Text(c) => [c] case Placeholder(raw, _) => raw) + Raw(pieces[1..])
  }

  /** The group-1 texts of the matches, in order. */
  function Keys(pieces: seq<Piece>): seq<string>
  {
    if pieces == [] then []
    else (match pieces[0] case Text(_) => [] case Placeholder(_, key) => [key]) + Keys(pieces[1..])
  }

  /** Cutting loses nothing: the pieces put back together are the scanned text. */
  lemma {:induction false} ScanRaw(s: string, i: nat)
    requires i <= |s|
    ensures Raw(Scan(s, i)) == s[i..]
    decreases |s| - i
  {
    if i < |s| {
      match MatchAt(s, i)
      case Some(m) =>
        ScanRaw(s, m.end);
        assert s[i..] == s[i..m.end] + s[m.end..];
      case None =>
        ScanRaw(s, i + 1);
        assert s[i..] == [s[i]] + s[i + 1..];
    }
  }

  /** Every piece that the scan marks as a placeholder is a match of the pattern. */
  lemma {:induction false} ScanPlaceholdersMatch(s: string, i: nat)
    requires i <= |s|
    ensures forall key :: key in Keys(Scan(s, i)) ==> IsKey(key)
    decreases |s| - i
  {
    if i < |s| {
      match MatchAt(s, i)
      case Some(m) =>
        ScanPlaceholdersMatch(s, m.end);
        MatchAtSound(s, i);
      case None =>
        ScanPlaceholdersMatch(s, i + 1);
    }
  }

  /** `find_placeholders` (build.py:144-146): the group-1 text of every match, left to right. Every key found
      is a non-empty run of `[\w.]`. */
  function FindPlaceholders(content: string): (keys: seq<string>)
    ensures forall key :: key in keys ==> IsKey(key)
  {
    ScanPlaceholdersMatch(content, 0);
    Keys(Pieces(content))
  }

  /** The text `re.sub` produces for the pieces: a match whose key resolves to `None` is kept as it
      was, any other match becomes `show` of the value (`show` stands for Python's `str`). When no key of
      the pieces resolves, the rendering is the raw text. */
  function Render(pieces: seq<Piece>, data: Value, show: Value -> string): (r: string)
    ensures (forall key :: key in Keys(pieces) ==> NestedValue(data, key).Null?) ==> r == Raw(pieces)
  {
    if pieces == [] then ""
    else
      var head := match pieces[0]
        case Text(c) => [c]
        case Placeholder(raw, key) => if NestedValue(data, key).Null? then raw else show(NestedValue(data, key));
      assert Keys(pieces) == PieceKeys(pieces[0]) + Keys(pieces[1..]);
      head + Render(pieces[1..], data, show)
  }

  /** How many of `keys` resolve to a value other than `None`: at most all of them, all of them exactly when
      every key resolves, and none when no key does. */
  function CountResolved(keys: seq<string>, data: Value): (n: nat)
    ensures n <= |keys|
    ensures n == |keys| <==> forall key :: key in keys ==> !NestedValue(data, key).Null?
    ensures (forall key :: key in keys ==> NestedValue(data, key).Null?) ==> n == 0
  {
    if keys == [] then 0
    else
      assert forall key :: key in keys <==> key == keys[0] || key in keys[1..];
      (if NestedValue(data, keys[0]).Null? then 0 else 1) + CountResolved(keys[1..], data)
  }

  /** The key of one piece, as a list of zero or one keys. */
  function PieceKeys(piece: Piece): seq<string>
  {
    match piece case Text(_) => [] case Placeholder(_, key) => [key]
  }

  lemma KeysCons(piece: Piece, rest: seq<Piece>)
    ensures Keys([piece] + rest) == PieceKeys(piece) + Keys(rest)
  {
    assert ([piece] + rest)[1..] == rest;
  }

  lemma CountResolvedCons(keys: seq<string>, rest: seq<string>, data: Value)
    requires |keys| <= 1
    ensures CountResolved(keys + rest, data) == CountResolved(keys, data) + CountResolved(rest, data)
  {
    if |keys| == 1 {
      assert (keys + rest)[1..] == rest;
      assert keys[1..] == [];
    } else {
      assert keys + rest == rest;
    }
  }

  lemma RenderCons(piece: Piece, rest: seq<Piece>, data: Value, show: Value -> string)
    ensures Render([piece] + rest, data, show) == Render([piece], data, show) + Render(rest, data, show)
  {
    assert ([piece] + rest)[1..] == rest;
    assert [piece][1..] == [];
  }

  /** One step of the scan: the piece at `start`, then the pieces after it. */
  lemma ReplaceStep(s: string, start: nat, next: nat, piece: Piece, data: Value, show: Value -> string)
    requires start < |s| && next <= |s|
    requires Scan(s, start) == [piece] + Scan(s, next)
    ensures Render(Scan(s, start), data, show) == Render([piece], data, show) + Render(Scan(s, next), data, show)
    ensures CountResolved(Keys(Scan(s, start)), data) == CountResolved(PieceKeys(piece), data) + CountResolved(Keys(Scan(s, next)), data)
  {
    RenderCons(piece, Scan(s, next), data, show);
    KeysCons(piece, Scan(s, next));
    CountResolvedCons(PieceKeys(piece), Keys(Scan(s, next)), data);
  }

  /** The next piece of the scan from `i`: a match of the pattern starting there, else one character. */
  method ScanOne(content: string, i: nat) returns (piece: Piece, next: nat)
    requires i < |content|
    ensures i < next <= |content|
    ensures Scan(content, i) == [piece] + Scan(content, next)
  {
    match MatchAt(content, i) {
      case Some(m) =>
        piece, next := Placeholder(content[i..m.end], m.key), m.end;
      case None =>
        piece, next := Text(content[i]), i + 1;
    }
  }

  /** The `replacer` of `replace_placeholders` (build.py:212-227): a key that resolves to a value other
      than `None` is replaced by that value's text and counted; any other match is kept as it was. */
  method Replacer(raw: string, key: string, data: Value, show: Value -> string) returns (text: string, counted: nat)
    ensures text == Render([Placeholder(raw, key)], data, show)
    ensures counted == CountResolved([key], data)
    ensures counted <= 1
  {
    var value := GetNestedValue(data, key);
    if value.Null? {
      text, counted := raw, 0;
    } else {
      text, counted := show(value), 1;
    }
  }

  /** One step of `re.sub`: the next piece from `i` and the text and count it contributes. */
  method ReplaceNext(content: string, i: nat, data: Value, show: Value -> string)
    returns (piece: Piece, next: nat, text: string, counted: nat)
    requires i < |content|
    ensures i < next <= |content|
    ensures Scan(content, i) == [piece] + Scan(content, next)
    ensures text == Render([piece], data, show)
    ensures counted == CountResolved(Keys([piece]), data)
  {
    piece, next := ScanOne(content, i);
    KeysCons(piece, []);
    match piece {
      case Text(c) =>
        text, counted := [c], 0;
        assert [piece][1..] == [];
      case Placeholder(raw, key) =>
        text, counted := Replacer(raw, key, data, show);
    }
  }

  /** `re.sub` from position `i` on: the text that replaces `content[i..]` and how many keys resolved. */
  method ReplaceFrom(content: string, i: nat, data: Value, show: Value -> string) returns (text: string, count: nat)
    requires i <= |content|
    ensures text == Render(Scan(content, i), data, show)
    ensures count == CountResolved(Keys(Scan(content, i)), data)
    decreases |content| - i
  {
    if i == |content| {
      return "", 0;
    }
    var piece, next, head, counted := ReplaceNext(content, i, data, show);
    var tail, rest := ReplaceFrom(content, next, data, show);
    ReplaceStep(content, i, next, piece, data, show);
    text, count := head + tail, counted + rest;
  }

  /** `replace_placeholders` (build.py:197-230): the replacer runs on each match in order, bumping the
      count only for keys that resolve. */
  method ReplacePlaceholders(content: string, data: Value, show: Value -> string)
    returns (newContent: string, count: nat)
    ensures newContent == Render(Pieces(content), data, show)
    ensures count == CountResolved(FindPlaceholders(content), data)
  {
    newContent, count := ReplaceFrom(content, 0, data, show);
  }

  /** Placeholders whose keys resolve to `None` are left byte for byte; in particular content whose keys
      all fail to resolve, or that has no placeholder at all, comes back unchanged with count 0. */
  lemma UnresolvedUnchanged(content: string, data: Value, show: Value -> string)
    requires forall key :: key in FindPlaceholders(content) ==> NestedValue(data, key).Null?
    ensures Render(Pieces(content), data, show) == content
    ensures CountResolved(FindPlaceholders(content), data) == 0
  {
    ScanRaw(content, 0);
  }

  /** One HTML file to check: its path and its text, `None` when the file does not exist. */
  datatype HtmlFile = HtmlFile(path: string, content: Option<string>)

  /** The placeholders found in a file; none for a missing file. */
  function FileKeys(file: HtmlFile): seq<string>
  {
    if file.content.Some? then FindPlaceholders(file.content.value) else []
  }

  /** The distinct strings of a list. */
  function Elems(keys: seq<string>): set<string>
  {
    set key | key in keys
  }

  /** `used_keys` after the given files: every placeholder of every file. */
  function UsedKeys(files: seq<HtmlFile>): set<string>
    decreases |files|
  {
    if files == [] then {} else UsedKeys(files[..|files| - 1]) + Elems(FileKeys(files[|files| - 1]))
  }

  /** `file_placeholders` after the given files: a file with placeholders sets the entry for its path. */
  function FileMap(files: seq<HtmlFile>): map<string, seq<string>>
    decreases |files|
  {
    if files == [] then map[]
    else
      var last := files[|files| - 1];
      if FileKeys(last) != [] then FileMap(files[..|files| - 1])[last.path := FileKeys(last)]
      else FileMap(files[..|files| - 1])
  }

  /** The keys among `keys` that resolve to `None`. */
  function Unresolved(keys: set<string>, data: Value): set<string>
  {
    set key | key in keys && NestedValue(data, key).Null?
  }

  lemma UnresolvedUnion(a: set<string>, b: set<string>, data: Value)
    ensures Unresolved(a + b, data) == Unresolved(a, data) + Unresolved(b, data)
  {
  }

  /** Every used key comes from some file's placeholders. */
  lemma {:induction false} UsedKeysSource(files: seq<HtmlFile>, key: string) returns (i: nat)
    requires key in UsedKeys(files)
    ensures i < |files| && key in FileKeys(files[i])
    decreases |files|
  {
    var init := files[..|files| - 1];
    if key in UsedKeys(init) {
      i := UsedKeysSource(init, key);
      assert files[i] == init[i];
    } else {
      i := |files| - 1;
    }
  }

  /** Every placeholder of every file is a used key. */
  lemma {:induction false} UsedKeysCover(files: seq<HtmlFile>, i: nat)
    requires i < |files|
    ensures Elems(FileKeys(files[i])) <= UsedKeys(files)
    decreases |files|
  {
    var init, last := files[..|files| - 1], files[|files| - 1];
    var used := UsedKeys(init);
    var added := Elems(FileKeys(last));
    assert UsedKeys(files) == used + added;
    if i < |init| {
      UsedKeysCover(init, i);
      assert files[i] == init[i];
    } else {
      assert files[i] == last;
    }
  }

  /** Every path in the map comes from a file with that path that has placeholders. */
  lemma {:induction false} FileMapSource(files: seq<HtmlFile>, p: string) returns (i: nat)
    requires p in FileMap(files)
    ensures i < |files| && files[i].path == p && FileKeys(files[i]) != []
    decreases |files|
  {
    var init, last := files[..|files| - 1], files[|files| - 1];
    if p == last.path && FileKeys(last) != [] {
      i := |files| - 1;
    } else {
      i := FileMapSource(init, p);
      assert files[i] == init[i];
    }
  }

  /** Every file that has placeholders has an entry for its path. */
  lemma {:induction false} FileMapCover(files: seq<HtmlFile>, i: nat)
    requires i < |files| && FileKeys(files[i]) != []
    ensures files[i].path in FileMap(files)
    decreases |files|
  {
    var init := files[..|files| - 1];
    if i < |init| {
      FileMapCover(init, i);
      assert files[i] == init[i];
    }
  }

  /** Among the files, `files[i]` is the last one with its path that has placeholders. */
  predicate LastUseOfPath(files: seq<HtmlFile>, i: nat)
    requires i < |files|
  {
    FileKeys(files[i]) != [] &&
    forall j :: i < j < |files| && files[j].path == files[i].path ==> FileKeys(files[j]) == []
  }

  /** The entry for a path holds the placeholders of the last file with that path that has any. */
  lemma {:induction false} FileMapLast(files: seq<HtmlFile>, i: nat)
    requires i < |files| && LastUseOfPath(files, i)
    ensures files[i].path in FileMap(files) && FileMap(files)[files[i].path] == FileKeys(files[i])
    decreases |files|
  {
    var init := files[..|files| - 1];
    if i < |init| {
      assert LastUseOfPath(init, i) by {
        forall j | i < j < |init| && init[j].path == init[i].path
          ensures FileKeys(init[j]) == []
        {
          assert init[j] == files[j];
        }
      }
      FileMapLast(init, i);
      assert init[i] == files[i];
    }
  }

  /** Scans one file; `None` for a missing file, else its placeholders (build.py:165-171). */
  method ReadPlaceholders(file: HtmlFile) returns (placeholders: Option<seq<string>>)
    ensures placeholders.None? <==> file.content.None?
    ensures placeholders.Some? ==> placeholders.value == FileKeys(file)
  {
    if file.content.None? {
      return None;
    }
    placeholders := Some(FindPlaceholders(file.content.value));
  }

  /** The inner loop of `validate_placeholders` (build.py:178-181): adds each key that resolves to `None`. */
  method AddMissing(placeholders: seq<string>, data: Value, missingKeys: set<string>) returns (result: set<string>)
    ensures result == missingKeys + Unresolved(Elems(placeholders), data)
  {
    result := missingKeys;
    var k := 0;
    while k < |placeholders|
      invariant 0 <= k <= |placeholders|
      invariant result == missingKeys + Unresolved(Elems(placeholders[..k]), data)
    {
      assert Elems(placeholders[..k + 1]) == Elems(placeholders[..k]) + {placeholders[k]} by {
        assert placeholders[..k + 1] == placeholders[..k] + [placeholders[k]];
      }
      UnresolvedUnion(Elems(placeholders[..k]), {placeholders[k]}, data);
      var value := GetNestedValue(data, placeholders[k]);
      if value.Null? {
        result := result + {placeholders[k]};
      }
      k := k + 1;
    }
    assert placeholders[..k] == placeholders;
  }

  /** `validate_placeholders` (build.py:149-184): which files use placeholders (by path, a later file with the
      same path overwriting an earlier one), every key used, and the used keys that resolve to `None`. */
  method ValidatePlaceholders(files: seq<HtmlFile>, data: Value)
    returns (filePlaceholders: map<string, seq<string>>, missingKeys: set<string>, usedKeys: set<string>)
    ensures filePlaceholders == FileMap(files)
    ensures usedKeys == UsedKeys(files)
    ensures missingKeys == Unresolved(usedKeys, data) && missingKeys <= usedKeys
    ensures forall key :: key in usedKeys <==> exists i :: 0 <= i < |files| && key in FileKeys(files[i])
    ensures forall p :: p in filePlaceholders <==> exists i :: 0 <= i < |files| && files[i].path == p && FileKeys(files[i]) != []
    ensures forall i :: 0 <= i < |files| && LastUseOfPath(files, i) ==> filePlaceholders[files[i].path] == FileKeys(files[i])
  {
    filePlaceholders, missingKeys, usedKeys := map[], {}, {};
    var n := 0;
    while n < |files|
      invariant 0 <= n <= |files|
      invariant filePlaceholders == FileMap(files[..n])
      invariant usedKeys == UsedKeys(files[..n])
      invariant missingKeys == Unresolved(usedKeys, data)
    {
      assert files[..n + 1][..n] == files[..n];
      var found := ReadPlaceholders(files[n]);
      if found.Some? && found.value != [] {
        var placeholders := found.value;
        filePlaceholders := filePlaceholders[files[n].path := placeholders];
        UnresolvedUnion(usedKeys, Elems(placeholders), data);
        usedKeys := usedKeys + Elems(placeholders);
        missingKeys := AddMissing(placeholders, data, missingKeys);
      }
      n := n + 1;
    }
    assert files[..n] == files;
    forall key | key in usedKeys
      ensures exists i :: 0 <= i < |files| && key in FileKeys(files[i])
    {
      var i := UsedKeysSource(files, key);
    }
    forall i | 0 <= i < |files|
      ensures Elems(FileKeys(files[i])) <= usedKeys
    {
      UsedKeysCover(files, i);
    }
    forall p | p in filePlaceholders
      ensures exists i :: 0 <= i < |files| && files[i].path == p && FileKeys(files[i]) != []
    {
      var i := FileMapSource(files, p);
    }
    forall i | 0 <= i < |files| && FileKeys(files[i]) != []
      ensures files[i].path in filePlaceholders
    {
      FileMapCover(files, i);
    }
    forall i | 0 <= i < |files| && LastUseOfPath(files, i)
      ensures filePlaceholders[files[i].path] == FileKeys(files[i])
    {
      FileMapLast(files, i);
    }
  }

  /** `find_unused_keys` (build.py:187-190): the flattened keys of the data that no placeholder uses. */
  method FindUnusedKeys(data: Value, usedKeys: set<string>) returns (unused: set<string>)
    requires data.Dict?
    ensures unused == FlatKeys(data) - usedKeys
    ensures unused !! usedKeys
  {
    var flat := FlattenDict(data, "");
    unused := KeySet(flat) - usedKeys;
  }
}
