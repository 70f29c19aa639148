/**
 * The JavaScript string built-ins the router relies on: `trim`,
 * `toLowerCase` and `split(' ')`, and truthiness of an optional string.
 * `Join` is the inverse of `Split` (what `Array.prototype.join(' ')` does)
 * and serves as its reference definition.
 */
module JsString {
  import opened Wrappers

  /** A string property is truthy when it is present and not empty. */
  predicate IsTruthy(s: Option<string>) {
    s.Some? && s.value != ""
  }

  /**
   * The characters `String.prototype.trim` removes: WhiteSpace (including
   * every space separator of category Zs) and LineTerminator of ECMA-262.
   */
  predicate IsJsWhitespace(c: char) {
    c == '\t' || c == '\n' || c == '\U{000B}' || c == '\U{000C}' || c == '\r' || c == ' '
    || c == '\U{00A0}' || c == '\U{1680}' || ('\U{2000}' <= c <= '\U{200A}')
    || c == '\U{2028}' || c == '\U{2029}' || c == '\U{202F}' || c == '\U{205F}'
    || c == '\U{3000}' || c == '\U{FEFF}'
  }

  predicate AllWhitespace(s: string) {
    forall i :: 0 <= i < |s| ==> IsJsWhitespace(s[i])
  }

  /** Neither end of `s` is whitespace. */
  predicate Unpadded(s: string) {
    s == [] || (!IsJsWhitespace(s[0]) && !IsJsWhitespace(s[|s| - 1]))
  }

  /** `s` with its longest whitespace prefix removed. */
  function TrimStart(s: string): (r: string)
    ensures |r| <= |s| && r == s[|s| - |r|..]
    ensures AllWhitespace(s[..|s| - |r|])
    ensures r == [] || !IsJsWhitespace(r[0])
  {
    if s != [] && IsJsWhitespace(s[0]) then
      var r := TrimStart(s[1..]);
      TrimStartStep(s, r);
      r
    else
      s
  }

  /** Cutting one more leading whitespace character keeps `r` a suffix after a whitespace prefix. */
  lemma TrimStartStep(s: string, r: string)
    requires s != [] && IsJsWhitespace(s[0])
    requires |r| <= |s| - 1 && r == s[1..][|s| - 1 - |r|..]
    requires AllWhitespace(s[1..][..|s| - 1 - |r|])
    ensures r == s[|s| - |r|..]
    ensures AllWhitespace(s[..|s| - |r|])
  {
    var n := |s| - |r|;
    forall i | 0 <= i < n ensures IsJsWhitespace(s[..n][i]) {
      if i > 0 {
        assert s[..n][i] == s[1..][..n - 1][i - 1];
      }
    }
  }

  /** `s` with its longest whitespace suffix removed. */
  function TrimEnd(s: string): (r: string)
    ensures |r| <= |s| && r == s[..|r|]
    ensures AllWhitespace(s[|r|..])
    ensures r == [] || !IsJsWhitespace(r[|r| - 1])
  {
    if s != [] && IsJsWhitespace(s[|s| - 1]) then
      var r := TrimEnd(s[..|s| - 1]);
      assert s[|r|..] == s[..|s| - 1][|r|..] + [s[|s| - 1]];
      r
    else
      s
  }

  /**
   * `String.prototype.trim`. The clauses below only bound the result; which
   * characters it keeps is fixed by the `TrimStart` and `TrimEnd` contracts
   * (only whitespace is cut) and by `TrimIgnoresPadding` and `TrimOfUnpadded`
   * (exactly the surrounding whitespace is cut).
   */
  function Trim(s: string): (r: string)
    ensures |r| <= |s|
    ensures Unpadded(r)
  {
    TrimEnd(TrimStart(s))
  }

  /** `toLowerCase`, restricted to ASCII case folding. */
  function LowerChar(c: char): (d: char)
    ensures c == d || ('A' <= c <= 'Z' && 'a' <= d <= 'z')
  {
    if 'A' <= c <= 'Z' then (c as int - 'A' as int + 'a' as int) as char else c
  }

  /** `String.prototype.toLowerCase` (ASCII case folding). */
  function ToLower(s: string): (r: string)
    ensures |r| == |s|
    ensures forall i :: 0 <= i < |s| ==> r[i] == LowerChar(s[i])
  {
    if s == [] then [] else [LowerChar(s[0])] + ToLower(s[1..])
  }

  /** `ToLower` applied to each piece. */
  function LowerAll(parts: seq<string>): (r: seq<string>)
    ensures |r| == |parts|
    ensures forall i :: 0 <= i < |parts| ==> r[i] == ToLower(parts[i])
  {
    if parts == [] then [] else [ToLower(parts[0])] + LowerAll(parts[1..])
  }

  /** `parts.join(' ')`. */
  function Join(parts: seq<string>): string
    requires |parts| >= 1
  {
    if |parts| == 1 then parts[0] else parts[0] + " " + Join(parts[1..])
  }

  /** Joining starts with the first piece, followed by a space and the rest when there is more. */
  lemma JoinHead(parts: seq<string>)
    requires |parts| >= 1
    ensures |parts| == 1 ==> Join(parts) == parts[0]
    ensures |parts| > 1 ==> Join(parts) == parts[0] + " " + Join(parts[1..])
    ensures |parts[0]| <= |Join(parts)| && Join(parts)[..|parts[0]|] == parts[0]
    ensures |parts| > 1 ==> |parts[0]| < |Join(parts)| && Join(parts)[|parts[0]|] == ' '
                            && Join(parts)[|parts[0]| + 1..] == Join(parts[1..])
  {
  }

  lemma {:induction false} JoinExtendsHead(a: string, rest: seq<string>)
    requires |rest| >= 1
    ensures Join([a + rest[0]] + rest[1..]) == a + Join(rest)
  {
    var parts := [a + rest[0]] + rest[1..];
    if |rest| > 1 {
      assert parts[1..] == rest[1..];
      var tail := Join(rest[1..]);
      assert Join(parts) == (a + rest[0]) + " " + tail;
      assert Join(rest) == rest[0] + " " + tail;
      assert (a + rest[0]) + " " + tail == a + (rest[0] + " " + tail);
    }
  }

  /**
   * `s.split(' ')`: the pieces between single spaces, so a run of n spaces
   * yields n - 1 empty pieces and the empty string yields one empty piece.
   * Joining the pieces with single spaces gives `s` back.
   */
  function Split(s: string): (parts: seq<string>)
    ensures |parts| >= 1
    ensures forall i :: 0 <= i < |parts| ==> ' ' !in parts[i]
    ensures Join(parts) == s
  {
    if s == [] then
      [[]]
    else if s[0] == ' ' then
      var rest := Split(s[1..]);
      assert ([""] + rest)[1..] == rest;
      [""] + rest
    else
      var rest := Split(s[1..]);
      JoinExtendsHead([s[0]], rest);
      assert [s[0]] + s[1..] == s;
      [[s[0]] + rest[0]] + rest[1..]
  }

  /** A word without spaces merges into the first piece of what follows it. */
  lemma {:induction false} SplitWordPrefix(w: string, t: string)
    requires ' ' !in w
    ensures Split(w + t) == [w + Split(t)[0]] + Split(t)[1..]
    decreases |w|
  {
    if w == [] {
      var parts := Split(t);
      assert w + t == t;
      assert w + parts[0] == parts[0];
      assert [parts[0]] + parts[1..] == parts;
    } else {
      assert (w + t)[0] == w[0];
      assert (w + t)[1..] == w[1..] + t;
      assert w[0] in w;
      SplitWordPrefix(w[1..], t);
      assert [w[0]] + (w[1..] + Split(t)[0]) == w + Split(t)[0];
    }
  }

  /** A leading space closes an empty first piece. */
  lemma SplitLeadingSpace(j: string)
    ensures Split(" " + j) == [""] + Split(j)
  {
    var t := " " + j;
    assert t[0] == ' ' && t[1..] == j;
  }

  /** `Split` undoes `Join` on pieces that hold no space. */
  lemma {:induction false} JoinSplit(parts: seq<string>)
    requires |parts| >= 1
    requires forall i :: 0 <= i < |parts| ==> ' ' !in parts[i]
    ensures Split(Join(parts)) == parts
    decreases |parts|
  {
    var word := parts[0];
    assert word + "" == word;
    if |parts| == 1 {
      SplitWordPrefix(word, "");
    } else {
      var rest := parts[1..];
      var j := Join(rest);
      assert Join(parts) == word + (" " + j);
      JoinSplit(rest);
      SplitLeadingSpace(j);
      SplitWordPrefix(word, " " + j);
      assert [word] + rest == parts;
    }
  }

  lemma LowerCharIdempotent(c: char)
    ensures LowerChar(LowerChar(c)) == LowerChar(c)
  {
  }

  /** Folding case twice is folding it once. */
  lemma ToLowerIdempotent(s: string)
    ensures ToLower(ToLower(s)) == ToLower(s)
  {
    var once := ToLower(s);
    var twice := ToLower(once);
    forall i | 0 <= i < |s| ensures twice[i] == once[i] {
      LowerCharIdempotent(s[i]);
    }
  }

  /** Folding case commutes with splitting on spaces. */
  lemma {:induction false} SplitToLower(s: string)
    ensures Split(ToLower(s)) == LowerAll(Split(s))
    decreases |s|
  {
    if s != [] {
      var low := ToLower(s);
      assert low[0] == LowerChar(s[0]);
      assert low[1..] == ToLower(s[1..]);
      SplitToLower(s[1..]);
      var rest := Split(s[1..]);
      if s[0] == ' ' {
        assert LowerAll([""] + rest) == [""] + LowerAll(rest);
      } else {
        var head := [s[0]] + rest[0];
        assert head[0] == s[0] && head[1..] == rest[0];
        assert ToLower(head) == [LowerChar(s[0])] + ToLower(rest[0]);
        assert LowerAll([head] + rest[1..]) == [ToLower(head)] + LowerAll(rest)[1..];
      }
    }
  }

  /** `split(' ')` on one space between two words, and on a double space. */
  lemma SplitExamples()
    ensures Split("help me") == ["help", "me"]
    ensures Split("help  me") == ["help", "", "me"]
    ensures Split("") == [""]
  {
    JoinSplit(["help", "me"]);
    assert Join(["help", "me"]) == "help me";
    JoinSplit(["help", "", "me"]);
    assert Join(["help", "", "me"]) == "help  me";
  }

  /** Leading whitespace does not survive `TrimStart`. */
  lemma {:induction false} TrimStartSkipsPadding(pre: string, s: string)
    requires AllWhitespace(pre)
    ensures TrimStart(pre + s) == TrimStart(s)
    decreases |pre|
  {
    if pre == [] {
      assert pre + s == s;
    } else {
      assert (pre + s)[0] == pre[0];
      assert (pre + s)[1..] == pre[1..] + s;
      TrimStartSkipsPadding(pre[1..], s);
    }
  }

  /** Trailing whitespace is kept by `TrimStart` unless everything is whitespace. */
  lemma {:induction false} TrimStartAppend(s: string, post: string)
    requires AllWhitespace(post)
    ensures TrimStart(s + post) == if TrimStart(s) == [] then [] else TrimStart(s) + post
    decreases |s|
  {
    if s == [] {
      assert s + post == post;
    } else {
      assert (s + post)[0] == s[0];
      assert (s + post)[1..] == s[1..] + post;
      if IsJsWhitespace(s[0]) {
        TrimStartAppend(s[1..], post);
      }
    }
  }

  /** Trailing whitespace does not survive `TrimEnd`. */
  lemma {:induction false} TrimEndSkipsPadding(s: string, post: string)
    requires AllWhitespace(post)
    ensures TrimEnd(s + post) == TrimEnd(s)
    decreases |post|
  {
    if post == [] {
      assert s + post == s;
    } else {
      var whole := s + post;
      assert whole[|whole| - 1] == post[|post| - 1];
      assert whole[..|whole| - 1] == s + post[..|post| - 1];
      TrimEndSkipsPadding(s, post[..|post| - 1]);
    }
  }

  /** Whitespace around a string does not change what `trim` returns. */
  lemma TrimIgnoresPadding(pre: string, s: string, post: string)
    requires AllWhitespace(pre) && AllWhitespace(post)
    ensures Trim(pre + s + post) == Trim(s)
  {
    var padded := pre + s + post;
    assert padded == pre + (s + post);
    TrimStartSkipsPadding(pre, s + post);
    assert TrimStart(padded) == TrimStart(s + post);
    TrimStartAppend(s, post);
    var front := TrimStart(s);
    if front != [] {
      assert TrimStart(padded) == front + post;
      TrimEndSkipsPadding(front, post);
    }
  }

  /** A string with no whitespace at either end is its own trim. */
  lemma TrimOfUnpadded(s: string)
    requires Unpadded(s)
    ensures Trim(s) == s
  {
  }
}
