/** Emoji shortcodes `:name:` (emojiRegex) and the sentinel escaping that
    keeps the underscores of their names away from the markdown parser. */
module Emoji {
  import opened JsRegex

  /** The private sentinel `\xff` that stands for `_` inside emoji names. */
  const Sentinel: char := '\U{FF}'

  /** The class `[A-Za-z0-9_\-\+\xff]` of emoji name characters. */
  predicate IsNameChar(c: char) {
    || ('A' <= c <= 'Z') || ('a' <= c <= 'z') || ('0' <= c <= '9')
    || c == '_' || c == '-' || c == '+' || c == Sentinel
  }

  /** s starts with a match of `:([A-Za-z0-9_\-\+\xff]+?):` whose name has
      n characters. */
  predicate IsTokenAt(s: string, n: nat) {
    1 <= n && n + 2 <= |s| && s[0] == ':' && All(s[1..n + 1], IsNameChar) && s[n + 1] == ':'
  }

  /** Length of the name of the emoji token at the start of s, 0 when there is
      none. The lazy `+?` stops at the first ':' and no name character is a
      ':', so there is at most one candidate length. */
  function TokenLen(s: string): (n: nat)
    ensures n > 0 ==> IsTokenAt(s, n)
    ensures forall m :: IsTokenAt(s, m) ==> m == n
  {
    if |s| < 3 || s[0] != ':' then 0
    else
      var k := Run(s[1..], IsNameChar);
      assert forall m: nat :: IsTokenAt(s, m) ==> s[1..][..m] == s[1..m + 1];
      if k >= 1 && k + 1 < |s| && s[k + 1] == ':' then
        assert s[1..][..k] == s[1..k + 1];
        k
      else 0
  }

  /** `s.replace(emojiRegex, callback)`: every token, leftmost first and
      without overlap, is replaced by `replacement` applied to its name. */
  function ReplaceEmoji(s: string, replacement: string -> string): string
    decreases |s|
  {
    if s == [] then []
    else
      var n := TokenLen(s);
      if n > 0 then replacement(s[1..n + 1]) + ReplaceEmoji(s[n + 2..], replacement)
      else [s[0]] + ReplaceEmoji(s[1..], replacement)
  }

  /** Which positions of s lie inside the name of a token that the scan of
      ReplaceEmoji finds. */
  function NameMask(s: string): (m: seq<bool>)
    ensures |m| == |s|
    ensures forall i :: 0 <= i < |s| && m[i] ==> IsNameChar(s[i])
    decreases |s|
  {
    if s == [] then []
    else
      var n := TokenLen(s);
      if n > 0 then
        var m := [false] + seq(n, _ => true) + [false] + NameMask(s[n + 2..]);
        assert forall i :: 1 <= i <= n ==> s[i] == s[1..n + 1][i - 1];
        m
      else [false] + NameMask(s[1..])
  }

  /** No position of s starts an emoji token. */
  predicate TokenFree(s: string) {
    forall i :: 0 <= i < |s| ==> TokenLen(s[i..]) == 0
  }

  /** `str.replace(/[from]/g, to)`. */
  function Translate(s: string, from: char, to: char): (r: string)
    ensures |r| == |s|
    ensures forall i :: 0 <= i < |s| ==> r[i] == if s[i] == from then to else s[i]
    decreases |s|
  {
    if s == [] then []
    else [if s[0] == from then to else s[0]] + Translate(s[1..], from, to)
  }

  /** escapeUnderscore */
  function EscapeUnderscore(s: string): string {
    Translate(s, '_', Sentinel)
  }

  /** unescapeUnderscore */
  function UnescapeUnderscore(s: string): string {
    Translate(s, Sentinel, '_')
  }

  /** The callback `':' + Translate(name, from, to) + ':'` shared by
      escapeEmoji and unescapeEmoji. */
  function NameTranslator(from: char, to: char): string -> string {
    name => ":" + Translate(name, from, to) + ":"
  }

  /** The emoji scan with NameTranslator as the callback. */
  function TranslateNames(s: string, from: char, to: char): string {
    ReplaceEmoji(s, NameTranslator(from, to))
  }

  /** escapeEmoji */
  function EscapeEmoji(s: string): string {
    TranslateNames(s, '_', Sentinel)
  }

  /** unescapeEmoji */
  function UnescapeEmoji(s: string): string {
    TranslateNames(s, Sentinel, '_')
  }

  // ---------------------------------------------------------------- lemmas

  /** escapeUnderscore replaces every `_` by the sentinel and changes nothing
      else. */
  lemma EscapeUnderscoreSpec(s: string)
    ensures |EscapeUnderscore(s)| == |s|
    ensures '_' !in EscapeUnderscore(s)
    ensures forall i :: 0 <= i < |s| && s[i] != '_' ==> EscapeUnderscore(s)[i] == s[i]
    ensures forall i :: 0 <= i < |s| && s[i] == '_' ==> EscapeUnderscore(s)[i] == Sentinel
  {
  }

  /** unescapeUnderscore undoes escapeUnderscore on text without the sentinel. */
  lemma UnderscoreRoundTrip(s: string)
    requires Sentinel !in s
    ensures UnescapeUnderscore(EscapeUnderscore(s)) == s
  {
  }

  /** A match at the start of s rewrites exactly that token. */
  lemma {:induction false} ReplaceEmojiToken(name: string, rest: string, replacement: string -> string)
    requires |name| >= 1 && All(name, IsNameChar)
    ensures ReplaceEmoji(":" + name + ":" + rest, replacement)
            == replacement(name) + ReplaceEmoji(rest, replacement)
  {
    TokenAtStart(name, rest);
  }

  /** The token at the start of ":" + name + ":" + rest is name. */
  lemma TokenAtStart(name: string, rest: string)
    requires |name| >= 1 && All(name, IsNameChar)
    ensures var s := ":" + name + ":" + rest;
      && TokenLen(s) == |name| && s[1..|name| + 1] == name && s[|name| + 2..] == rest
  {
    var s := ":" + name + ":" + rest;
    assert s[1..|name| + 1] == name;
    assert IsTokenAt(s, |name|);
    assert s[|name| + 2..] == rest;
  }

  /** Text without tokens goes through the emoji scan unchanged. */
  lemma {:induction false} ReplaceEmojiTokenFree(s: string, replacement: string -> string)
    requires TokenFree(s)
    ensures ReplaceEmoji(s, replacement) == s
    decreases |s|
  {
    if s != [] {
      assert TokenLen(s[0..]) == 0 && s[0..] == s;
      assert TokenFree(s[1..]) by {
        forall i | 0 <= i < |s[1..]| ensures TokenLen(s[1..][i..]) == 0 {
          assert s[1..][i..] == s[i + 1..];
        }
      }
      ReplaceEmojiTokenFree(s[1..], replacement);
    }
  }

  /** A stretch without ':' in front of b is copied by the emoji scan. */
  lemma {:induction false} ReplaceEmojiColonFree(a: string, b: string, replacement: string -> string)
    requires ':' !in a
    ensures ReplaceEmoji(a + b, replacement) == a + ReplaceEmoji(b, replacement)
    decreases |a|
  {
    if a != [] {
      assert (a + b)[0] == a[0] && (a + b)[1..] == a[1..] + b;
      ReplaceEmojiColonFree(a[1..], b, replacement);
    } else {
      assert a + b == b;
    }
  }

  /** Only text holding a ':' can contain a token. */
  lemma NoColonTokenFree(s: string)
    requires ':' !in s
    ensures TokenFree(s)
  {
    forall i | 0 <= i < |s| ensures TokenLen(s[i..]) == 0 {
      assert s[i..][0] == s[i];
    }
  }

  /** Translating names maps each position inside a found name and copies
      every other position. */
  predicate TranslatesByMask(s: string, from: char, to: char) {
    && |TranslateNames(s, from, to)| == |s|
    && forall i :: 0 <= i < |s| ==>
         TranslateNames(s, from, to)[i] == if NameMask(s)[i] && s[i] == from then to else s[i]
  }

  /** Translating names character by character, by induction on the scan. */
  lemma {:induction false} TranslateNamesAt(s: string, from: char, to: char)
    ensures TranslatesByMask(s, from, to)
    decreases |s|
  {
    if s != [] {
      var n := TokenLen(s);
      if n > 0 {
        TranslateNamesAt(s[n + 2..], from, to);
        TranslateNamesAtToken(s, from, to);
      } else {
        TranslateNamesAt(s[1..], from, to);
        TranslateNamesAtCopy(s, from, to);
      }
    }
  }

  /** The step of TranslateNamesAt over a token. */
  lemma TranslateNamesAtToken(s: string, from: char, to: char)
    requires TokenLen(s) > 0 && TranslatesByMask(s[TokenLen(s) + 2..], from, to)
    ensures TranslatesByMask(s, from, to)
  {
    var n := TokenLen(s);
    var r := TranslateNames(s, from, to);
    var name := s[1..n + 1];
    var tail := TranslateNames(s[n + 2..], from, to);
    assert r == ":" + Translate(name, from, to) + ":" + tail;
    forall i | 0 <= i < |s|
      ensures r[i] == if NameMask(s)[i] && s[i] == from then to else s[i]
    {
      if 1 <= i <= n {
        assert r[i] == Translate(name, from, to)[i - 1];
        assert name[i - 1] == s[i];
      } else if i > n + 1 {
        assert r[i] == tail[i - n - 2];
        assert NameMask(s)[i] == NameMask(s[n + 2..])[i - n - 2];
        assert s[i] == s[n + 2..][i - n - 2];
      }
    }
  }

  /** The step of TranslateNamesAt over a character that starts no token. */
  lemma TranslateNamesAtCopy(s: string, from: char, to: char)
    requires s != [] && TokenLen(s) == 0 && TranslatesByMask(s[1..], from, to)
    ensures TranslatesByMask(s, from, to)
  {
    var r := TranslateNames(s, from, to);
    var tail := TranslateNames(s[1..], from, to);
    assert r == [s[0]] + tail;
    forall i | 1 <= i < |s|
      ensures r[i] == if NameMask(s)[i] && s[i] == from then to else s[i]
    {
      assert r[i] == tail[i - 1];
      assert NameMask(s)[i] == NameMask(s[1..])[i - 1];
    }
  }

  /** escapeEmoji changes exactly the underscores inside emoji names: the
      result has the same length, no underscore is left in a name, and every
      other character, underscores outside names included, is untouched. */
  lemma EscapeEmojiLocal(s: string)
    ensures |EscapeEmoji(s)| == |s|
    ensures forall i :: 0 <= i < |s| && NameMask(s)[i] && s[i] == '_' ==> EscapeEmoji(s)[i] == Sentinel
    ensures forall i :: 0 <= i < |s| && !(NameMask(s)[i] && s[i] == '_') ==> EscapeEmoji(s)[i] == s[i]
    ensures forall i :: 0 <= i < |s| && NameMask(s)[i] ==> EscapeEmoji(s)[i] != '_'
  {
    TranslateNamesAt(s, '_', Sentinel);
  }

  /** s and t have ':' and name characters at the same positions. */
  predicate SameShape(s: string, t: string) {
    |s| == |t| &&
    forall i :: 0 <= i < |s| ==> (s[i] == ':') == (t[i] == ':') && IsNameChar(s[i]) == IsNameChar(t[i])
  }

  /** Token boundaries depend only on where ':' and name characters are. */
  lemma TokenLenShape(s: string, t: string)
    requires SameShape(s, t)
    ensures TokenLen(s) == TokenLen(t)
  {
    forall m | 1 <= m && m + 2 <= |s| ensures IsTokenAt(s, m) == IsTokenAt(t, m) {
      assert (s[0] == ':') == (t[0] == ':') && (s[m + 1] == ':') == (t[m + 1] == ':');
      assert All(s[1..m + 1], IsNameChar) == All(t[1..m + 1], IsNameChar) by {
        assert forall j :: 1 <= j <= m ==> s[1..m + 1][j - 1] == s[j] && t[1..m + 1][j - 1] == t[j];
      }
    }
    if TokenLen(s) > 0 { assert IsTokenAt(t, TokenLen(s)); }
    if TokenLen(t) > 0 { assert IsTokenAt(s, TokenLen(t)); }
  }

  lemma SameShapeSuffix(s: string, t: string, k: nat)
    requires SameShape(s, t) && k <= |s|
    ensures SameShape(s[k..], t[k..])
  {
    assert forall j :: k <= j < |s| ==> s[k..][j - k] == s[j] && t[k..][j - k] == t[j];
  }

  lemma {:induction false} NameMaskShape(s: string, t: string)
    requires SameShape(s, t)
    ensures NameMask(s) == NameMask(t)
    decreases |s|
  {
    if s != [] {
      TokenLenShape(s, t);
      var n := TokenLen(s);
      if n > 0 {
        SameShapeSuffix(s, t, n + 2);
        NameMaskShape(s[n + 2..], t[n + 2..]);
      } else {
        SameShapeSuffix(s, t, 1);
        NameMaskShape(s[1..], t[1..]);
      }
    }
  }

  /** Escaping finds the same tokens that were there before: `_` and the
      sentinel are both name characters. */
  lemma EscapeEmojiKeepsTokens(s: string)
    ensures NameMask(EscapeEmoji(s)) == NameMask(s)
  {
    EscapeEmojiLocal(s);
    NameMaskShape(s, EscapeEmoji(s));
  }

  /** unescapeEmoji(escapeEmoji(s)) == s whenever no name of a token in s
      already holds the sentinel. */
  lemma EmojiRoundTrip(s: string)
    requires forall i :: 0 <= i < |s| && NameMask(s)[i] ==> s[i] != Sentinel
    ensures UnescapeEmoji(EscapeEmoji(s)) == s
  {
    var e := EscapeEmoji(s);
    EscapeEmojiLocal(s);
    EscapeEmojiKeepsTokens(s);
    TranslateNamesAt(e, Sentinel, '_');
    assert forall i :: 0 <= i < |s| ==> UnescapeEmoji(e)[i] == s[i];
  }
}
