/**
 * The JavaScript string operations the three tools rely on, stated on
 * `string` (a sequence of UTF-16 code units in JavaScript, of `char` here):
 * `toLowerCase`, `split` on one character, `lastIndexOf`, and
 * `replace(/\.[^/.]+$/, repl)`, the regular expression that both the video
 * and the audio tool use to cut a file name's extension.
 */
module Text {

  // ---------------------------------------------------------------------
  // toLowerCase
  // ---------------------------------------------------------------------

  predicate IsUpper(c: char) {
    'A' <= c <= 'Z'
  }

  /** Lower-cases one ASCII letter; every other character is kept. */
  function LowerChar(c: char): (r: char)
    ensures !IsUpper(r)
    ensures !IsUpper(c) ==> r == c
    ensures IsUpper(c) ==> 'a' <= r <= 'z'
  {
    if IsUpper(c) then (c as int + 32) as char else c
  }

  /** `s.toLowerCase()`, restricted to the ASCII letters. */
  function ToLower(s: string): (r: string)
    ensures |r| == |s|
    ensures forall i :: 0 <= i < |s| ==> r[i] == LowerChar(s[i])
  {
    if s == [] then [] else [LowerChar(s[0])] + ToLower(s[1..])
  }

  /** Lower-casing keeps every character that is not a capital letter. */
  lemma {:induction false} ToLowerKeepsNonLetters(s: string)
    requires forall i :: 0 <= i < |s| ==> !IsUpper(s[i])
    ensures ToLower(s) == s
  {
    if s != [] {
      ToLowerKeepsNonLetters(s[1..]);
    }
  }

  /** Lower-casing brings in no character other than a small letter. */
  lemma ToLowerAvoids(s: string, c: char)
    requires c !in s && !('a' <= c <= 'z')
    ensures c !in ToLower(s)
  {
    var r := ToLower(s);
    forall i | 0 <= i < |r| ensures r[i] != c {
      assert r[i] == LowerChar(s[i]);
    }
  }

  /** Lower-casing twice is lower-casing once. */
  lemma ToLowerIdempotent(s: string)
    ensures ToLower(ToLower(s)) == ToLower(s)
  {
    ToLowerKeepsNonLetters(ToLower(s));
  }

  // ---------------------------------------------------------------------
  // lastIndexOf
  // ---------------------------------------------------------------------

  /** `s.lastIndexOf(c)`: the index of the last `c` in `s`, or -1 if none. */
  function LastIndexOf(s: string, c: char): (r: int)
    ensures -1 <= r < |s|
    ensures r == -1 ==> forall j :: 0 <= j < |s| ==> s[j] != c
    ensures r >= 0 ==> s[r] == c && forall j :: r < j < |s| ==> s[j] != c
  {
    if s == [] then -1
    else if s[|s| - 1] == c then |s| - 1
    else LastIndexOf(s[..|s| - 1], c)
  }

  // ---------------------------------------------------------------------
  // split and join on one separator character
  // ---------------------------------------------------------------------

  /**
   * `s.split(sep)` for a one-character separator: the pieces between the
   * separators, always at least one (`"".split(".")` is `[""]`). Built
   * from the back, one character at a time.
   */
  function Split(s: string, sep: char): (parts: seq<string>)
    ensures |parts| >= 1
  {
    if s == [] then [""]
    else
      var init := Split(s[..|s| - 1], sep);
      var x := s[|s| - 1];
      if x == sep then init + [""]
      else init[..|init| - 1] + [init[|init| - 1] + [x]]
  }

  /** `parts.join(sep)`. */
  function Join(parts: seq<string>, sep: char): string
    requires |parts| >= 1
  {
    if |parts| == 1 then parts[0]
    else Join(parts[..|parts| - 1], sep) + [sep] + parts[|parts| - 1]
  }

  /** Joining one more piece adds the separator and that piece. */
  lemma JoinSnoc(parts: seq<string>, p: string, sep: char)
    requires |parts| >= 1
    ensures Join(parts + [p], sep) == Join(parts, sep) + [sep] + p
  {
    assert (parts + [p])[..|parts|] == parts;
  }

  /** Extending the last piece by `x` extends the joined string by `x`. */
  lemma JoinExtendLast(parts: seq<string>, x: char, sep: char)
    requires |parts| >= 1
    ensures Join(parts[..|parts| - 1] + [parts[|parts| - 1] + [x]], sep) == Join(parts, sep) + [x]
  {
    var m := |parts|;
    if m > 1 {
      var front := parts[..m - 1];
      assert parts == front + [parts[m - 1]];
      JoinSnoc(front, parts[m - 1], sep);
      JoinSnoc(front, parts[m - 1] + [x], sep);
    }
  }

  /** Joining the pieces of a split with the same separator gives back the string. */
  lemma {:induction false} SplitJoin(s: string, sep: char)
    ensures Join(Split(s, sep), sep) == s
  {
    if s != [] {
      var t := s[..|s| - 1];
      var x := s[|s| - 1];
      var init := Split(t, sep);
      SplitJoin(t, sep);
      assert s == t + [x];
      if x == sep {
        assert Split(s, sep) == init + [""];
        JoinSnoc(init, "", sep);
      } else {
        assert Split(s, sep) == init[..|init| - 1] + [init[|init| - 1] + [x]];
        JoinExtendLast(init, x, sep);
      }
    }
  }

  /**
   * `s.split(sep).pop()`: the last piece is the text after the last
   * separator, or the whole string when it has none.
   */
  lemma {:induction false} SplitLast(s: string, sep: char)
    ensures Split(s, sep)[|Split(s, sep)| - 1] == s[LastIndexOf(s, sep) + 1..]
  {
    if s != [] {
      var t := s[..|s| - 1];
      var x := s[|s| - 1];
      var init := Split(t, sep);
      var parts := Split(s, sep);
      SplitLast(t, sep);
      if x != sep {
        var d := LastIndexOf(t, sep);
        assert LastIndexOf(s, sep) == d;
        assert parts[|parts| - 1] == init[|init| - 1] + [x];
        assert s[d + 1..] == t[d + 1..] + [x];
      }
    }
  }

  /** No piece of a split holds the separator. */
  lemma {:induction false} SplitPiecesLackSep(s: string, sep: char)
    ensures forall k :: 0 <= k < |Split(s, sep)| ==> sep !in Split(s, sep)[k]
  {
    if s != [] {
      var t := s[..|s| - 1];
      var x := s[|s| - 1];
      var init := Split(t, sep);
      SplitPiecesLackSep(t, sep);
      var parts := Split(s, sep);
      if x != sep {
        var m := |init|;
        assert parts == init[..m - 1] + [init[m - 1] + [x]];
        forall k | 0 <= k < |parts| ensures sep !in parts[k] {
          if k < m - 1 {
            assert parts[k] == init[k];
          } else {
            assert parts[k] == init[m - 1] + [x];
          }
        }
      }
    }
  }

  // ---------------------------------------------------------------------
  // replace(/\.[^/.]+$/, repl)
  // ---------------------------------------------------------------------

  /**
   * The regular expression `\.[^/.]+$` matches starting at `i`: a dot, then
   * one or more characters that are neither `/` nor `.`, up to the end of
   * the string.
   */
  predicate ExtensionAt(s: string, i: int) {
    0 <= i < |s| - 1 && s[i] == '.' &&
    forall j :: i < j < |s| ==> s[j] != '/' && s[j] != '.'
  }

  /** The leftmost position at or after `i` where the expression matches. */
  function FindExtensionFrom(s: string, i: nat): (r: int)
    ensures r == -1 ==> forall j :: i <= j < |s| ==> !ExtensionAt(s, j)
    ensures r != -1 ==> i <= r && ExtensionAt(s, r) &&
                        forall j :: i <= j < r ==> !ExtensionAt(s, j)
    decreases |s| - i
  {
    if i >= |s| then -1
    else if ExtensionAt(s, i) then i
    else FindExtensionFrom(s, i + 1)
  }

  /**
   * `s.replace(/\.[^/.]+$/, repl)`: without the `g` flag only the leftmost
   * match is replaced; without a match the string is returned unchanged.
   */
  function ReplaceExtension(s: string, repl: string): (r: string)
    ensures r == s ||
            (|repl| <= |r| < |s| - 1 + |repl| && s[|r| - |repl|] == '.' &&
             r == s[..|r| - |repl|] + repl)
  {
    var i := FindExtensionFrom(s, 0);
    if i == -1 then s else s[..i] + repl
  }

  /**
   * The name has an extension in the sense of the expression: its last dot
   * is followed by at least one character and by no `/`.
   */
  predicate HasExtension(s: string) {
    var d := LastIndexOf(s, '.');
    0 <= d < |s| - 1 && '/' !in s[d + 1..]
  }

  /** The expression can only match at the last dot of the string. */
  lemma ExtensionAtLastDot(s: string, i: int)
    requires ExtensionAt(s, i)
    ensures i == LastIndexOf(s, '.')
  {
  }

  /** Where the expression matches, the name has an extension. */
  lemma ExtensionAtMeansHasExtension(s: string, i: int)
    requires ExtensionAt(s, i)
    ensures HasExtension(s)
  {
    var tail := s[i + 1..];
    forall k | 0 <= k < |tail| ensures tail[k] != '/' {
      assert tail[k] == s[i + 1 + k];
    }
  }

  /** A name that has an extension is matched by the expression at its last dot. */
  lemma HasExtensionMatches(s: string)
    requires HasExtension(s)
    ensures ExtensionAt(s, LastIndexOf(s, '.'))
  {
    var d := LastIndexOf(s, '.');
    var tail := s[d + 1..];
    forall j | d < j < |s| ensures s[j] != '/' {
      assert s[j] == tail[j - d - 1];
    }
  }

  /**
   * The regular-expression replace agrees with the last-dot description:
   * it cuts at the last dot exactly when the name has an extension, and
   * otherwise changes nothing.
   */
  lemma ReplaceExtensionAtLastDot(s: string, repl: string)
    ensures ReplaceExtension(s, repl) ==
            if HasExtension(s) then s[..LastIndexOf(s, '.')] + repl else s
  {
    var i := FindExtensionFrom(s, 0);
    if i != -1 {
      ExtensionAtLastDot(s, i);
      ExtensionAtMeansHasExtension(s, i);
    } else if HasExtension(s) {
      HasExtensionMatches(s);
    }
  }

  /**
   * A name written as a stem, a dot and an extension without `/` or `.`
   * loses exactly that dot and extension, whatever the stem holds.
   */
  lemma ReplaceExtensionOfStem(stem: string, ext: string, repl: string)
    requires |ext| > 0
    requires forall k :: 0 <= k < |ext| ==> ext[k] != '/' && ext[k] != '.'
    ensures ReplaceExtension(stem + "." + ext, repl) == stem + repl
  {
    var s := stem + "." + ext;
    LastDotOfStem(stem, ext);
    ReplaceExtensionAtLastDot(s, repl);
    assert s[..|stem|] == stem;
  }

  /** In a stem, a dot and an extension without `/` or `.`, the expression
      matches at that dot, which is the last one. */
  lemma LastDotOfStem(stem: string, ext: string)
    requires |ext| > 0
    requires forall k :: 0 <= k < |ext| ==> ext[k] != '/' && ext[k] != '.'
    ensures ExtensionAt(stem + "." + ext, |stem|)
    ensures LastIndexOf(stem + "." + ext, '.') == |stem|
    ensures HasExtension(stem + "." + ext)
    ensures (stem + "." + ext)[|stem| + 1..] == ext
  {
    var s := stem + "." + ext;
    var d := |stem|;
    assert s[d + 1..] == ext;
    assert s[d] == '.';
    forall j | d < j < |s| ensures s[j] != '/' && s[j] != '.' {
      assert s[j] == ext[j - d - 1];
    }
    assert ExtensionAt(s, d);
    ExtensionAtLastDot(s, d);
    ExtensionAtMeansHasExtension(s, d);
  }

  /** A name without an extension is never changed by the replace. */
  lemma ReplaceExtensionWithout(s: string, repl: string)
    requires !HasExtension(s)
    ensures ReplaceExtension(s, repl) == s
  {
    ReplaceExtensionAtLastDot(s, repl);
  }
}
