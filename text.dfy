/**
 * String helpers of scrape.py: the whitespace normaliser `normalize_space`
 * (re.sub(r"\s+", " ", s).strip()), Python's `str.strip`, the part of
 * `str.lower` that can produce ASCII letters, `str(int)` and the split of the
 * page text on the standalone word "Details".
 */
module Text {

  /** Python's whitespace set: `str.isspace`, which is also what `\s` matches in a str pattern. */
  predicate IsSpace(c: char) {
    || c == ' '
    || ('\t' <= c <= '\r')
    || ('\U{1C}' <= c <= '\U{1F}')
    || c == '\U{85}' || c == '\U{A0}' || c == '\U{1680}'
    || ('\U{2000}' <= c <= '\U{200A}')
    || c == '\U{2028}' || c == '\U{2029}' || c == '\U{202F}' || c == '\U{205F}' || c == '\U{3000}'
  }

  /** Neither end of `s` is whitespace. */
  predicate NoEdgeSpace(s: string) {
    s == [] || (!IsSpace(s[0]) && !IsSpace(s[|s| - 1]))
  }

  /** Positions `i` and `i + 1` of `s` both hold whitespace. */
  predicate SpacePair(s: string, i: int)
    requires 0 <= i < |s| - 1
  {
    IsSpace(s[i]) && IsSpace(s[i + 1])
  }

  /** Every whitespace character of `s` is a plain space and no two of them are adjacent. */
  predicate SingleSpaced(s: string) {
    && (forall i :: 0 <= i < |s| && IsSpace(s[i]) ==> s[i] == ' ')
    && (forall i :: 0 <= i < |s| - 1 ==> !SpacePair(s, i))
  }

  /** The shape of a `normalize_space` result. */
  predicate IsNormalized(s: string) {
    NoEdgeSpace(s) && SingleSpaced(s)
  }

  /** The non-whitespace characters of `s`, in order: what normalisation must keep. */
  function NonSpace(s: string): string {
    if s == [] then []
    else if IsSpace(s[0]) then NonSpace(s[1..])
    else [s[0]] + NonSpace(s[1..])
  }

  lemma {:induction false} NonSpaceAppend(a: string, b: string)
    ensures NonSpace(a + b) == NonSpace(a) + NonSpace(b)
  {
    if a == [] {
      assert a + b == b;
    } else {
      assert (a + b)[0] == a[0];
      assert (a + b)[1..] == a[1..] + b;
      NonSpaceAppend(a[1..], b);
    }
  }

  lemma {:induction false} NonSpaceBlank(s: string)
    ensures NonSpace(s) == [] <==> forall i :: 0 <= i < |s| ==> IsSpace(s[i])
  {
    if s != [] {
      NonSpaceBlank(s[1..]);
      assert forall i :: 1 <= i < |s| ==> s[i] == s[1..][i - 1];
    }
  }

  /** `s` without its leading whitespace (str.lstrip). */
  function TrimLeft(s: string): (r: string)
    ensures |r| <= |s| && r == s[|s| - |r|..]
    ensures r == [] || !IsSpace(r[0])
    ensures forall i :: 0 <= i < |s| - |r| ==> IsSpace(s[i])
    ensures NonSpace(r) == NonSpace(s)
    decreases |s|
  {
    if s != [] && IsSpace(s[0]) then
      var r := TrimLeft(s[1..]);
      TrimLeftStep(s, r);
      r
    else s
  }

  /** One leading whitespace character more does not change what `TrimLeft` keeps. */
  lemma {:induction false} TrimLeftStep(s: string, r: string)
    requires s != [] && IsSpace(s[0])
    requires |r| <= |s| - 1 && r == s[1..][|s| - 1 - |r|..]
    requires forall i :: 0 <= i < |s| - 1 - |r| ==> IsSpace(s[1..][i])
    requires NonSpace(r) == NonSpace(s[1..])
    ensures |r| <= |s| && r == s[|s| - |r|..]
    ensures forall i :: 0 <= i < |s| - |r| ==> IsSpace(s[i])
    ensures NonSpace(r) == NonSpace(s)
  {
    forall i | 0 <= i < |s| - |r|
      ensures IsSpace(s[i])
    {
      if i > 0 {
        assert s[i] == s[1..][i - 1];
      }
    }
  }

  /** `s` without its trailing whitespace (str.rstrip). */
  function TrimRight(s: string): (r: string)
    ensures |r| <= |s| && r == s[..|r|]
    ensures r == [] || !IsSpace(r[|r| - 1])
    ensures forall i :: |r| <= i < |s| ==> IsSpace(s[i])
    ensures NonSpace(r) == NonSpace(s)
    decreases |s|
  {
    if s != [] && IsSpace(s[|s| - 1]) then
      var r := TrimRight(s[..|s| - 1]);
      NonSpaceAppend(s[..|s| - 1], [s[|s| - 1]]);
      assert s == s[..|s| - 1] + [s[|s| - 1]];
      r
    else s
  }

  /** A slice of a single-spaced string is single-spaced. */
  lemma SingleSpacedSlice(s: string, t: string, i: int, j: int)
    requires 0 <= i <= j <= |s| && t == s[i..j]
    ensures SingleSpaced(s) ==> SingleSpaced(t)
  {
    assert forall k :: 0 <= k < j - i ==> s[i..j][k] == s[i + k];
    assert forall k :: 0 <= k < j - i - 1 ==> SpacePair(s[i..j], k) == SpacePair(s, i + k);
  }

  /** Trimming both ends leaves no whitespace at either end. */
  lemma TrimBothEdges(s: string)
    ensures NoEdgeSpace(TrimRight(TrimLeft(s)))
  {
    var l := TrimLeft(s);
    var r := TrimRight(l);
    if r != [] {
      assert r[0] == l[0];
    }
  }

  /** Stripping keeps a single-spaced string single-spaced. */
  lemma StripSingleSpaced(s: string)
    ensures SingleSpaced(s) ==> SingleSpaced(Strip(s))
  {
    var k := |s| - |TrimLeft(s)|;
    var r := Strip(s);
    StripAt(s, k, r);
    SingleSpacedSlice(s, r, k, k + |r|);
  }

  /** Python's `str.strip()`: drop whitespace at both ends, keep everything in between. */
  function Strip(s: string): (r: string)
    ensures NoEdgeSpace(r)
    ensures |r| <= |s|
    ensures NonSpace(r) == NonSpace(s)
  {
    TrimBothEdges(s);
    TrimRight(TrimLeft(s))
  }

  /** What `strip` keeps begins where the leading whitespace ends. */
  lemma StripAt(s: string, k: int, r: string)
    requires k == |s| - |TrimLeft(s)| && r == Strip(s)
    ensures 0 <= k <= k + |r| <= |s| && r == s[k..k + |r|]
  {
    var l := TrimLeft(s);
    var t := TrimRight(l);
    assert r == t;
    PrefixOfSuffix(s, k, l, r);
  }

  lemma PrefixOfSuffix(s: string, k: int, l: string, r: string)
    requires 0 <= k <= |s| && l == s[k..]
    requires |r| <= |l| && r == l[..|r|]
    ensures k + |r| <= |s| && r == s[k..k + |r|]
  {
    assert forall i :: 0 <= i < |r| ==> r[i] == s[k + i];
  }

  /** What `strip` keeps is one slice of the string. */
  lemma StripSlice(s: string)
    ensures exists i :: 0 <= i <= |s| - |Strip(s)| && Strip(s) == s[i..][..|Strip(s)|]
  {
    var i := |s| - |TrimLeft(s)|;
    var r := Strip(s);
    StripAt(s, i, r);
    assert r == s[i..][..|r|];
  }

  /** `re.sub(r"\s+", " ", s)`: every maximal whitespace run becomes one space. */
  function CollapseSpaces(s: string): (r: string)
    ensures SingleSpaced(r)
    ensures s != [] ==> r != [] && (IsSpace(s[0]) <==> IsSpace(r[0]))
    ensures NonSpace(r) == NonSpace(s)
    decreases |s|
  {
    if s == [] then []
    else if IsSpace(s[0]) then
      var rest := TrimLeft(s[1..]);
      var tail := CollapseSpaces(rest);
      SingleSpacedCons(' ', tail);
      var r := [' '] + tail;
      assert r[1..] == tail;
      r
    else
      var tail := CollapseSpaces(s[1..]);
      SingleSpacedCons(s[0], tail);
      var r := [s[0]] + tail;
      assert r[1..] == tail;
      r
  }

  lemma {:induction false} SingleSpacedCons(c: char, r: string)
    requires SingleSpaced(r)
    requires IsSpace(c) ==> c == ' ' && (r == [] || !IsSpace(r[0]))
    ensures SingleSpaced([c] + r)
  {
    var x := [c] + r;
    assert forall i :: 1 <= i < |x| ==> x[i] == r[i - 1];
    assert forall i :: 1 <= i < |x| - 1 ==> SpacePair(x, i) == SpacePair(r, i - 1);
    assert |x| > 1 ==> !SpacePair(x, 0);
  }

  /** scrape.py's `normalize_space`: the words of `s` joined by single spaces. */
  function NormalizeSpace(s: string): (r: string)
    ensures IsNormalized(r)
    ensures NonSpace(r) == NonSpace(s)
    ensures r == JoinWith(" ", Words(s))
  {
    StripSingleSpaced(CollapseSpaces(s));
    StripCollapseJoinsWords(s);
    Strip(CollapseSpaces(s))
  }

  lemma {:induction false} CollapseFixpoint(s: string)
    requires SingleSpaced(s)
    ensures CollapseSpaces(s) == s
    decreases |s|
  {
    if s != [] {
      assert SingleSpaced(s[1..]) by {
        assert forall i :: 0 <= i < |s| - 1 ==> s[1..][i] == s[i + 1];
        assert forall i :: 0 <= i < |s| - 2 ==> SpacePair(s[1..], i) == SpacePair(s, i + 1);
      }
      if IsSpace(s[0]) {
        assert s[1..] == [] || !IsSpace(s[1]) by {
          assert |s| > 1 ==> !SpacePair(s, 0);
        }
        assert TrimLeft(s[1..]) == s[1..];
        CollapseFixpoint(s[1..]);
        assert s == [' '] + s[1..];
      } else {
        CollapseFixpoint(s[1..]);
        assert s == [s[0]] + s[1..];
      }
    }
  }

  /** A normalised string is left as it is. */
  lemma NormalizedFixpoint(s: string)
    requires IsNormalized(s)
    ensures NormalizeSpace(s) == s
  {
    CollapseFixpoint(s);
    assert TrimLeft(s) == s;
    assert TrimRight(s) == s;
  }

  /** Normalising twice is normalising once. */
  lemma NormalizeIdempotent(s: string)
    ensures NormalizeSpace(NormalizeSpace(s)) == NormalizeSpace(s)
  {
    NormalizedFixpoint(NormalizeSpace(s));
  }

  /** The result is empty exactly when the input is all whitespace. */
  lemma NormalizeBlank(s: string)
    ensures NormalizeSpace(s) == [] <==> forall i :: 0 <= i < |s| ==> IsSpace(s[i])
  {
    var r := NormalizeSpace(s);
    NonSpaceBlank(s);
    NonSpaceBlank(r);
  }

  // ---------------------------------------------------------------------------
  // Words: `s.split()` and `" ".join(...)`

  /** `sep.join(parts)`. */
  function JoinWith(sep: string, parts: seq<string>): (r: string)
    ensures parts == [] ==> r == ""
    ensures parts != [] ==> |parts[0]| <= |r| && r[..|parts[0]|] == parts[0]
    ensures parts != [] ==> |parts[|parts| - 1]| <= |r| && r[|r| - |parts[|parts| - 1]|..] == parts[|parts| - 1]
  {
    if parts == [] then ""
    else if |parts| == 1 then parts[0]
    else parts[0] + sep + JoinWith(sep, parts[1..])
  }

  /** A word: a non-empty run of non-whitespace characters. */
  predicate IsWord(w: string) {
    w != [] && forall i :: 0 <= i < |w| ==> !IsSpace(w[i])
  }

  /** The longest prefix of `s` without whitespace. */
  function WordAt(s: string): (r: string)
    ensures |r| <= |s|
    ensures s != [] && !IsSpace(s[0]) ==> r != []
  {
    if s == [] || IsSpace(s[0]) then [] else [s[0]] + WordAt(s[1..])
  }

  /** `WordAt` is a prefix without whitespace that stops at whitespace or at the end. */
  lemma {:induction false} WordAtPrefix(s: string)
    ensures WordAt(s) == s[..|WordAt(s)|]
    ensures forall i :: 0 <= i < |WordAt(s)| ==> !IsSpace(s[i])
    ensures |WordAt(s)| < |s| ==> IsSpace(s[|WordAt(s)|])
  {
    if s != [] && !IsSpace(s[0]) {
      WordAtPrefix(s[1..]);
      assert forall i :: 1 <= i < |s| ==> s[i] == s[1..][i - 1];
    }
  }

  /** Python's `s.split()`: the maximal runs of non-whitespace characters of `s`, in order. */
  function Words(s: string): seq<string>
    decreases |s|
  {
    var t := TrimLeft(s);
    if t == [] then []
    else
      var w := WordAt(t);
      [w] + Words(t[|w|..])
  }

  /** Every piece `split` returns is a word. */
  lemma {:induction false} WordsAreWords(s: string)
    ensures forall w :: w in Words(s) ==> IsWord(w)
    decreases |s|
  {
    var t := TrimLeft(s);
    if t != [] {
      var w := WordAt(t);
      WordAtPrefix(t);
      assert IsWord(w) by {
        assert forall i :: 0 <= i < |w| ==> w[i] == t[i];
      }
      WordsAreWords(t[|w|..]);
    }
  }

  /** Leading whitespace does not change the words. */
  lemma {:induction false} WordsTrimLeft(s: string)
    ensures Words(TrimLeft(s)) == Words(s)
    ensures Words(s) == [] <==> TrimLeft(s) == []
  {
    var t := TrimLeft(s);
    assert TrimLeft(t) == t;
  }

  /** A word followed by whitespace (or nothing) is what `WordAt` finds. */
  lemma {:induction false} WordAtWord(w: string, x: string)
    requires forall i :: 0 <= i < |w| ==> !IsSpace(w[i])
    requires x == [] || IsSpace(x[0])
    ensures WordAt(w + x) == w
    decreases |w|
  {
    if w == [] {
      assert w + x == x;
    } else {
      assert (w + x)[0] == w[0] && (w + x)[1..] == w[1..] + x;
      WordAtWord(w[1..], x);
      assert w == [w[0]] + w[1..];
    }
  }

  /** Splitting words joined by single spaces gives the words back. */
  lemma {:induction false} WordsOfJoin(ws: seq<string>)
    requires forall w :: w in ws ==> IsWord(w)
    ensures Words(JoinWith(" ", ws)) == ws
  {
    if ws != [] {
      var w := ws[0];
      assert w in ws;
      if |ws| == 1 {
        assert ws == [w];
        WordsCons(w, []);
        ConcatAssoc([], w, []);
        assert Words([]) == [];
        assert Words(JoinWith(" ", ws)) == [w];
      } else {
        assert forall v :: v in ws[1..] ==> v in ws;
        WordsOfJoin(ws[1..]);
        assert ws[1..] != [] && IsWord(ws[1..][0]) by {
          assert ws[1..][0] == ws[1] && ws[1] in ws;
        }
        WordsOfJoinCons(w, ws[1..]);
        ConsSplit(ws);
        assert Words(JoinWith(" ", [w] + ws[1..])) == [w] + ws[1..];
      }
    }
  }

  /** One more word in front of a join is one more word in front of its split. */
  lemma {:induction false} WordsOfJoinCons(w: string, ws: seq<string>)
    requires IsWord(w) && ws != [] && IsWord(ws[0])
    requires Words(JoinWith(" ", ws)) == ws
    ensures Words(JoinWith(" ", [w] + ws)) == [w] + ws
  {
    var rest := JoinWith(" ", ws);
    JoinCons(w, ws);
    ConcatAssoc(w, " ", rest);
    assert rest[0] == ws[0][0];
    WordsCons(w, " " + rest);
    WordsSpaceCons(rest);
  }

  /** A word, then whitespace or nothing: the word, then the words of the rest. */
  lemma {:induction false} WordsCons(w: string, x: string)
    requires IsWord(w)
    requires x == [] || IsSpace(x[0])
    ensures Words(w + x) == [w] + Words(x)
  {
    WordAtWord(w, x);
    assert TrimLeft(w + x) == w + x;
    assert (w + x)[|w|..] == x;
  }

  /** A leading space does not change the words. */
  lemma {:induction false} WordsSpaceCons(x: string)
    ensures Words(" " + x) == Words(x)
  {
    WordsTrimLeft(" " + x);
    assert (" " + x)[1..] == x;
    assert TrimLeft(" " + x) == TrimLeft(x);
    WordsTrimLeft(x);
  }

  /** Joined words have no whitespace at either end, and are empty only when there are none. */
  lemma {:induction false} JoinedWordsEdges(ws: seq<string>)
    requires forall w :: w in ws ==> IsWord(w)
    ensures NoEdgeSpace(JoinWith(" ", ws))
    ensures JoinWith(" ", ws) == [] <==> ws == []
  {
    if ws != [] {
      var r := JoinWith(" ", ws);
      var first, last := ws[0], ws[|ws| - 1];
      assert first in ws && last in ws;
      assert r[0] == r[..|first|][0];
      assert r[|r| - 1] == r[|r| - |last|..][|last| - 1];
    }
  }

  /** `re.sub` keeps a word as it is and goes on after it. */
  lemma {:induction false} CollapseWordAt(s: string)
    ensures CollapseSpaces(s) == WordAt(s) + CollapseSpaces(s[|WordAt(s)|..])
    decreases |s|
  {
    if s != [] && !IsSpace(s[0]) {
      CollapseWordAt(s[1..]);
      assert WordAt(s) == [s[0]] + WordAt(s[1..]);
      assert s[|WordAt(s)|..] == s[1..][|WordAt(s[1..])|..];
    } else {
      assert s[0..] == s;
    }
  }

  /** `" "` when `s` ends in whitespace, else `""`. */
  function EndSpace(s: string): string {
    if s != [] && IsSpace(s[|s| - 1]) then " " else ""
  }

  /** The space `re.sub` leaves before the first word: `" "` when `s` starts with whitespace. */
  function LeadSpace(s: string): string {
    if s != [] && IsSpace(s[0]) then " " else ""
  }

  /** The space `re.sub` leaves after the last word: `" "` when `s` has a word and ends in whitespace. */
  function TrailSpace(s: string): string {
    if Words(s) == [] then "" else EndSpace(s)
  }

  /** On a string that does not start with whitespace, `re.sub` joins the words and keeps one trailing space. */
  lemma {:induction false} CollapseTrimmed(t: string)
    requires t == [] || !IsSpace(t[0])
    ensures CollapseSpaces(t) == JoinWith(" ", Words(t)) + EndSpace(t)
    decreases |t|
  {
    if t != [] {
      var w := WordAt(t);
      var rest := t[|w|..];
      if rest == [] {
        CollapseOneWord(t);
      } else {
        var u := TrimLeft(rest);
        CollapseTrimmed(u);
        CollapseAfterWord(t);
        if u == [] {
          CollapseLastWord(t);
        } else {
          CollapseNextWord(t);
        }
      }
    }
  }

  /** A single word is kept as it is. */
  lemma {:induction false} CollapseOneWord(t: string)
    requires t != [] && !IsSpace(t[0]) && t[|WordAt(t)|..] == []
    ensures CollapseSpaces(t) == JoinWith(" ", Words(t)) + EndSpace(t)
  {
    var w := WordAt(t);
    assert t == w && EndSpace(t) == "" by {
      WordAtPrefix(t);
      assert t == w;
      assert !IsSpace(t[|t| - 1]);
    }
    assert CollapseSpaces(t) == w && Words(t) == [w] by {
      CollapseWordAt(t);
      assert TrimLeft(t) == t;
    }
    ConcatAssoc([], w, []);
  }

  /** A last word followed by whitespace keeps one space after it. */
  lemma {:induction false} CollapseLastWord(t: string)
    requires t != [] && !IsSpace(t[0]) && t[|WordAt(t)|..] != []
    requires TrimLeft(t[|WordAt(t)|..]) == []
    requires CollapseSpaces(t) == WordAt(t) + " " + CollapseSpaces(TrimLeft(t[|WordAt(t)|..]))
    requires Words(t) == [WordAt(t)] + Words(TrimLeft(t[|WordAt(t)|..]))
    ensures CollapseSpaces(t) == JoinWith(" ", Words(t)) + EndSpace(t)
  {
    var w := WordAt(t);
    EndSpaceBlankTail(t, |w|);
    assert Words(t) == [w] + [];
    JoinCons(w, []);
    ConcatAssoc(w, " ", []);
  }

  /** Between two words, one space. */
  lemma {:induction false} CollapseNextWord(t: string)
    requires t != [] && !IsSpace(t[0]) && t[|WordAt(t)|..] != []
    requires TrimLeft(t[|WordAt(t)|..]) != []
    requires CollapseSpaces(t) == WordAt(t) + " " + CollapseSpaces(TrimLeft(t[|WordAt(t)|..]))
    requires Words(t) == [WordAt(t)] + Words(TrimLeft(t[|WordAt(t)|..]))
    requires CollapseSpaces(TrimLeft(t[|WordAt(t)|..])) ==
      JoinWith(" ", Words(TrimLeft(t[|WordAt(t)|..]))) + EndSpace(TrimLeft(t[|WordAt(t)|..]))
    ensures CollapseSpaces(t) == JoinWith(" ", Words(t)) + EndSpace(t)
  {
    var w := WordAt(t);
    var u := TrimLeft(t[|w|..]);
    EndSpaceTail(t, |w|);
    WordsTrimLeft(u);
    JoinCons(w, Words(u));
    ConcatAssoc(w + " ", JoinWith(" ", Words(u)), EndSpace(u));
  }

  /** After its first word, `re.sub` writes one space and goes on with the next word. */
  lemma {:induction false} CollapseAfterWord(t: string)
    requires t != [] && !IsSpace(t[0]) && t[|WordAt(t)|..] != []
    ensures CollapseSpaces(t) == WordAt(t) + " " + CollapseSpaces(TrimLeft(t[|WordAt(t)|..]))
    ensures Words(t) == [WordAt(t)] + Words(TrimLeft(t[|WordAt(t)|..]))
  {
    var w := WordAt(t);
    var rest := t[|w|..];
    var u := TrimLeft(rest);
    WordAtPrefix(t);
    CollapseWordAt(t);
    assert TrimLeft(t) == t;
    assert TrimLeft(rest[1..]) == u;
    WordsTrimLeft(rest);
    ConcatAssoc(w, " ", CollapseSpaces(u));
  }

  /** A string whose tail is all whitespace ends in whitespace. */
  lemma {:induction false} EndSpaceBlankTail(t: string, k: nat)
    requires k < |t| && TrimLeft(t[k..]) == []
    ensures EndSpace(t) == " "
  {
    var rest := t[k..];
    LastOfSuffix(t, k);
    assert IsSpace(rest[|rest| - 1]);
  }

  /** Otherwise it ends as the tail does once the tail's leading whitespace is dropped. */
  lemma {:induction false} EndSpaceTail(t: string, k: nat)
    requires k < |t| && TrimLeft(t[k..]) != []
    ensures EndSpace(t) == EndSpace(TrimLeft(t[k..]))
  {
    var rest := t[k..];
    var u := TrimLeft(rest);
    LastOfSuffix(t, k);
    LastOfSuffix(rest, |rest| - |u|);
  }

  /** `sep.join([w] + ws)`: the first part, then the separator and the rest if there are more. */
  lemma {:induction false} JoinCons(w: string, ws: seq<string>)
    ensures ws == [] ==> JoinWith(" ", [w] + ws) == w
    ensures ws != [] ==> JoinWith(" ", [w] + ws) == w + " " + JoinWith(" ", ws)
  {
    assert ([w] + ws)[1..] == ws;
  }

  /** A non-empty suffix ends where the whole string ends. */
  lemma {:induction false} LastOfSuffix(s: string, k: nat)
    requires k < |s|
    ensures s[k..][|s| - k - 1] == s[|s| - 1]
  {
  }

  /**
   * `re.sub(r"\s+", " ", s)` in terms of words: the words joined by single
   * spaces, with one space before them when `s` starts with whitespace and one
   * after them when `s` has a word and ends with whitespace.
   */
  lemma {:induction false} CollapseJoinsWords(s: string)
    ensures CollapseSpaces(s) == LeadSpace(s) + JoinWith(" ", Words(s)) + TrailSpace(s)
  {
    var t := TrimLeft(s);
    WordsTrimLeft(s);
    CollapseTrimmed(t);
    CollapseLead(s);
    TrailSpaceTrim(s);
    ConcatAssoc(LeadSpace(s), JoinWith(" ", Words(s)), TrailSpace(s));
  }

  /** Leading whitespace becomes one space, then `re.sub` goes on from the first word. */
  lemma {:induction false} CollapseLead(s: string)
    ensures CollapseSpaces(s) == LeadSpace(s) + CollapseSpaces(TrimLeft(s))
  {
    if s != [] && IsSpace(s[0]) {
      assert TrimLeft(s[1..]) == TrimLeft(s);
    } else {
      assert TrimLeft(s) == s;
      ConcatAssoc([], [], CollapseSpaces(s));
    }
  }

  /** The trailing space is decided once the leading whitespace is dropped. */
  lemma {:induction false} TrailSpaceTrim(s: string)
    ensures TrailSpace(s) == EndSpace(TrimLeft(s))
  {
    WordsTrimLeft(s);
    if TrimLeft(s) != [] {
      assert s[0..] == s;
      EndSpaceTail(s, 0);
    }
  }

  lemma {:induction false} ConsSplit<T>(xs: seq<T>)
    requires xs != []
    ensures xs == [xs[0]] + xs[1..]
  {
  }

  lemma {:induction false} ConcatAssoc(a: string, b: string, c: string)
    ensures a + (b + c) == a + b + c
    ensures a == [] ==> a + b == b
    ensures c == [] ==> b + c == b
  {
  }

  /** `lstrip` removes exactly a whitespace prefix. */
  lemma {:induction false} TrimLeftSpaces(a: string, y: string)
    requires forall i :: 0 <= i < |a| ==> IsSpace(a[i])
    requires y == [] || !IsSpace(y[0])
    ensures TrimLeft(a + y) == y
    decreases |a|
  {
    if a == [] {
      assert a + y == y;
    } else {
      assert (a + y)[0] == a[0] && (a + y)[1..] == a[1..] + y;
      TrimLeftSpaces(a[1..], y);
    }
  }

  /** `rstrip` removes exactly a whitespace suffix. */
  lemma {:induction false} TrimRightSpaces(y: string, b: string)
    requires forall i :: 0 <= i < |b| ==> IsSpace(b[i])
    requires y == [] || !IsSpace(y[|y| - 1])
    ensures TrimRight(y + b) == y
    decreases |b|
  {
    if b == [] {
      assert y + b == y;
    } else {
      assert (y + b)[|y + b| - 1] == b[|b| - 1];
      assert (y + b)[..|y + b| - 1] == y + b[..|b| - 1];
      TrimRightSpaces(y, b[..|b| - 1]);
    }
  }

  /** `re.sub(r"\s+", " ", s).strip() == " ".join(s.split())`. */
  lemma {:induction false} StripCollapseJoinsWords(s: string)
    ensures Strip(CollapseSpaces(s)) == JoinWith(" ", Words(s))
  {
    var j := JoinWith(" ", Words(s));
    var lead, trail := LeadSpace(s), TrailSpace(s);
    assert NoEdgeSpace(j) && (j == [] <==> Words(s) == []) by {
      WordsAreWords(s);
      JoinedWordsEdges(Words(s));
    }
    CollapseJoinsWords(s);
    StripPadded(lead, j, trail);
  }

  /** `strip` removes a padding of at most one space at either end and nothing else. */
  lemma {:induction false} StripPadded(a: string, x: string, b: string)
    requires a == "" || a == " "
    requires b == "" || b == " "
    requires NoEdgeSpace(x) && (x == [] ==> b == [])
    ensures Strip(a + x + b) == x
  {
    ConcatAssoc(a, x, b);
    if x != [] {
      TrimLeftSpaces(a, x + b);
      TrimRightSpaces(x, b);
    } else {
      TrimLeftSpaces(a, []);
      ConcatAssoc(a, [], []);
    }
  }

  /** Normalising keeps the words: `normalize_space(s).split() == s.split()`. */
  lemma {:induction false} NormalizeKeepsWords(s: string)
    ensures Words(NormalizeSpace(s)) == Words(s)
  {
    WordsAreWords(s);
    WordsOfJoin(Words(s));
  }

  /** `[p.strip() for p in pieces if p.strip()]`. */
  function StrippedParts(pieces: seq<string>): (r: seq<string>)
    ensures |r| <= |pieces|
    ensures forall p :: p in r ==> p != "" && NoEdgeSpace(p)
  {
    if pieces == [] then []
    else
      var p := Strip(pieces[0]);
      var rest := StrippedParts(pieces[1..]);
      if p == "" then rest
      else
        assert forall x :: x in [p] + rest ==> x == p || x in rest;
        [p] + rest
  }

  /** The parts keep the order of the pieces: those of a split list are those of each half, in turn. */
  lemma {:induction false} StrippedPartsAppend(xs: seq<string>, ys: seq<string>)
    ensures StrippedParts(xs + ys) == StrippedParts(xs) + StrippedParts(ys)
  {
    if xs == [] {
      assert xs + ys == ys;
    } else {
      assert (xs + ys)[0] == xs[0] && (xs + ys)[1..] == xs[1..] + ys;
      StrippedPartsAppend(xs[1..], ys);
    }
  }

  /** Every part is a stripped piece. */
  lemma {:induction false} StrippedPartsSound(pieces: seq<string>)
    ensures forall p :: p in StrippedParts(pieces) ==> exists q :: q in pieces && p == Strip(q)
  {
    if pieces != [] {
      var rest := StrippedParts(pieces[1..]);
      StrippedPartsSound(pieces[1..]);
      forall p | p in StrippedParts(pieces)
        ensures exists q :: q in pieces && p == Strip(q)
      {
        if p in rest {
          var q :| q in pieces[1..] && p == Strip(q);
          assert q in pieces;
        } else {
          assert p == Strip(pieces[0]);
        }
      }
    }
  }

  /** Every piece that is not blank gives a part. */
  lemma {:induction false} StrippedPartsComplete(pieces: seq<string>)
    ensures forall q :: q in pieces && Strip(q) != "" ==> Strip(q) in StrippedParts(pieces)
  {
    if pieces != [] {
      var rest := StrippedParts(pieces[1..]);
      StrippedPartsComplete(pieces[1..]);
      forall q | q in pieces && Strip(q) != ""
        ensures Strip(q) in StrippedParts(pieces)
      {
        if q != pieces[0] {
          assert q in pieces[1..];
          assert Strip(q) in rest;
        }
      }
    }
  }

  // ---------------------------------------------------------------------------
  // Lower-casing

  /**
   * The characters whose Python `str.lower()` contains an ASCII letter: A-Z,
   * U+0130 (lower-cased to "i" and a combining dot) and the Kelvin sign. Every
   * other character is kept, so `Lower` agrees with `str.lower` on every test
   * of equality with, or containment of, an ASCII string free of U+0307.
   */
  function LowerChar(c: char): (r: string)
  {
    if 'A' <= c <= 'Z' then [(c as int + 32) as char]
    else if c == '\U{130}' then ['i', '\U{307}']
    else if c == '\U{212A}' then ['k']
    else [c]
  }

  function Lower(s: string): string
  {
    if s == [] then [] else LowerChar(s[0]) + Lower(s[1..])
  }

  /** `s.lower() == t` compares character by character when `t` has no combining dot. */
  lemma LowerEqualsIff(s: string, t: string)
    requires '\U{307}' !in t
    ensures Lower(s) == t <==> |s| == |t| && forall i :: 0 <= i < |s| ==> LowerChar(s[i]) == [t[i]]
  {
    if Lower(s) == t {
      LowerEqualsOnly(s, t);
    }
    if |s| == |t| && forall i :: 0 <= i < |s| ==> LowerChar(s[i]) == [t[i]] {
      LowerEqualsIf(s, t);
    }
  }

  lemma {:induction false} LowerEqualsOnly(s: string, t: string)
    requires '\U{307}' !in t
    requires Lower(s) == t
    ensures |s| == |t| && forall i :: 0 <= i < |s| ==> LowerChar(s[i]) == [t[i]]
  {
    if s != [] {
      var c := LowerChar(s[0]);
      assert t == c + Lower(s[1..]);
      assert |c| == 1;
      assert t[1..] == Lower(s[1..]);
      LowerEqualsOnly(s[1..], t[1..]);
      assert forall i :: 1 <= i < |s| ==> s[i] == s[1..][i - 1] && t[i] == t[1..][i - 1];
    }
  }

  lemma {:induction false} LowerEqualsIf(s: string, t: string)
    requires |s| == |t| && forall i :: 0 <= i < |s| ==> LowerChar(s[i]) == [t[i]]
    ensures Lower(s) == t
  {
    if s != [] {
      assert forall i :: 0 <= i < |s| - 1 ==> LowerChar(s[1..][i]) == [t[1..][i]] by {
        assert forall i :: 0 <= i < |s| - 1 ==> s[1..][i] == s[i + 1] && t[1..][i] == t[i + 1];
      }
      LowerEqualsIf(s[1..], t[1..]);
      assert LowerChar(s[0]) == [t[0]];
      assert t == [t[0]] + t[1..];
    }
  }

  /** Lower-casing ignores the case of each letter: three sample captions. */
  lemma LowerOfDetails()
    ensures Lower("Details") == "details"
  {
    var s, t := "Details", "details";
    forall i | 0 <= i < |s|
      ensures LowerChar(s[i]) == [t[i]]
    {
      assert i == 0 ==> 'A' <= s[i] <= 'Z' && t[i] == (s[i] as int + 32) as char;
      assert i > 0 ==> s[i] == t[i] && 'a' <= s[i] <= 'z';
    }
    LowerEqualsIff(s, t);
  }

  lemma LowerOfCapitalDetails()
    ensures Lower("DETAILS") == "details"
  {
    var s, t := "DETAILS", "details";
    forall i | 0 <= i < |s|
      ensures LowerChar(s[i]) == [t[i]]
    {
      assert 'A' <= s[i] <= 'Z' && t[i] == (s[i] as int + 32) as char;
    }
    LowerEqualsIff(s, t);
  }

  lemma LowerOfHelp()
    ensures Lower("Help") != "details"
  {
  }

  /** `t` occurs in `s` as a substring (Python's `t in s`). */
  predicate Contains(s: string, t: string) {
    exists i :: 0 <= i <= |s| && t <= s[i..]
  }

  // ---------------------------------------------------------------------------
  // str(int)

  function DigitChar(d: nat): (c: char)
    requires d < 10
    ensures '0' <= c <= '9'
  {
    "0123456789"[d]
  }

  function DigitValue(c: char): (d: nat)
    requires '0' <= c <= '9'
    ensures d < 10
  {
    c as int - '0' as int
  }

  predicate AllDigits(s: string) {
    forall i :: 0 <= i < |s| ==> '0' <= s[i] <= '9'
  }

  /** The decimal digits of `n`, most significant first, without leading zeros. */
  function Digits(n: nat): (r: string)
    ensures r != [] && AllDigits(r)
    ensures n >= 10 ==> r[0] != '0'
    decreases n
  {
    if n < 10 then [DigitChar(n)] else Digits(n / 10) + [DigitChar(n % 10)]
  }

  /** Python's `str(n)` for an int. */
  function DecimalString(n: int): string
  {
    if n < 0 then "-" + Digits(-n) else Digits(n)
  }

  function ParseDigits(s: string): nat
    requires AllDigits(s)
  {
    if s == [] then 0 else 10 * ParseDigits(s[..|s| - 1]) + DigitValue(s[|s| - 1])
  }

  /** Python's `int(s)` on the strings `str` produces. */
  function ParseDecimal(s: string): int
    requires s != [] && AllDigits(if s[0] == '-' then s[1..] else s)
  {
    if s[0] == '-' then -(ParseDigits(s[1..]) as int) else ParseDigits(s)
  }

  lemma {:induction false} DigitsRoundTrip(n: nat)
    ensures ParseDigits(Digits(n)) == n
    decreases n
  {
    if n >= 10 {
      var d := Digits(n);
      DigitsRoundTrip(n / 10);
      assert d[..|d| - 1] == Digits(n / 10);
    }
  }

  /** `int(str(n)) == n`. */
  lemma DecimalRoundTrip(n: int)
    ensures DecimalString(n) != []
    ensures AllDigits(if DecimalString(n)[0] == '-' then DecimalString(n)[1..] else DecimalString(n))
    ensures ParseDecimal(DecimalString(n)) == n
  {
    var s := DecimalString(n);
    if n < 0 {
      var d := Digits(-n);
      DigitsRoundTrip(-n);
      assert s == "-" + d && s[0] == '-';
      assert s[1..] == d;
    } else {
      var d := Digits(n);
      DigitsRoundTrip(n);
      assert s == d && '0' <= s[0] <= '9';
    }
  }

  /** Distinct page indices give distinct path segments. */
  lemma DecimalInjective(a: int, b: int)
    ensures DecimalString(a) == DecimalString(b) ==> a == b
  {
    DecimalRoundTrip(a);
    DecimalRoundTrip(b);
  }

  // ---------------------------------------------------------------------------
  // re.split(r"\bDetails\b", s)

  const Sentinel: string := "Details"

  /** re's word characters, restricted to ASCII. */
  predicate IsWordChar(c: char) {
    ('a' <= c <= 'z') || ('A' <= c <= 'Z') || ('0' <= c <= '9') || c == '_'
  }

  /** `\bDetails\b` matches at position `i` of `s`. */
  predicate SentinelAt(s: string, i: nat) {
    && i + |Sentinel| <= |s|
    && s[i..i + |Sentinel|] == Sentinel
    && (i == 0 || !IsWordChar(s[i - 1]))
    && (i + |Sentinel| == |s| || !IsWordChar(s[i + |Sentinel|]))
  }

  /** The pieces of `s[from..]` between matches, scanning from position `i`. */
  function SplitFrom(s: string, from: nat, i: nat): (r: seq<string>)
    requires from <= i <= |s|
    ensures |r| >= 1
    decreases |s| - i
  {
    if i == |s| then [s[from..]]
    else if SentinelAt(s, i) then [s[from..i]] + SplitFrom(s, i + |Sentinel|, i + |Sentinel|)
    else SplitFrom(s, from, i + 1)
  }

  /** `re.split(r"\bDetails\b", s)`. */
  function SplitDetails(s: string): (r: seq<string>)
    ensures |r| >= 1
  {
    SplitFrom(s, 0, 0)
  }

  /** `"Details".join(parts)`: the inverse of the split. */
  function JoinSentinel(parts: seq<string>): string
    requires |parts| >= 1
  {
    if |parts| == 1 then parts[0] else parts[0] + Sentinel + JoinSentinel(parts[1..])
  }

  lemma {:induction false} SplitFromJoin(s: string, from: nat, i: nat)
    requires from <= i <= |s|
    ensures JoinSentinel(SplitFrom(s, from, i)) == s[from..]
    decreases |s| - i
  {
    if i == |s| {
    } else if SentinelAt(s, i) {
      var j := i + |Sentinel|;
      var rest := SplitFrom(s, j, j);
      SplitFromJoin(s, j, j);
      assert JoinSentinel([s[from..i]] + rest) == s[from..i] + Sentinel + s[j..] by {
        assert ([s[from..i]] + rest)[1..] == rest;
      }
      assert s[from..] == s[from..i] + Sentinel + s[j..] by {
        assert s[i..j] == Sentinel;
        assert s[from..] == s[from..i] + s[i..j] + s[j..];
      }
    } else {
      SplitFromJoin(s, from, i + 1);
    }
  }

  /** The number of positions from `i` on where `\bDetails\b` matches. */
  function MatchCount(s: string, i: nat): nat
    decreases |s| - i
  {
    if i >= |s| then 0
    else (if SentinelAt(s, i) then 1 else 0) + MatchCount(s, i + 1)
  }

  /** Two matches never overlap: "D" occurs in "Details" only at its start. */
  lemma NoMatchInside(s: string, i: nat, k: nat)
    requires SentinelAt(s, i) && i < k < i + |Sentinel|
    ensures !SentinelAt(s, k)
  {
    assert s[k] == s[i..i + |Sentinel|][k - i] == Sentinel[k - i] != 'D';
  }

  /** Nothing matches strictly inside a match, so counting resumes after it. */
  lemma {:induction false} MatchCountSkip(s: string, i: nat, k: nat)
    requires SentinelAt(s, i) && i < k <= i + |Sentinel|
    ensures MatchCount(s, i + 1) == MatchCount(s, k)
    decreases k - i
  {
    if k > i + 1 {
      MatchCountSkip(s, i, k - 1);
      NoMatchInside(s, i, k - 1);
    }
  }

  lemma {:induction false} SplitFromCount(s: string, from: nat, i: nat)
    requires from <= i <= |s|
    ensures |SplitFrom(s, from, i)| == 1 + MatchCount(s, i)
    decreases |s| - i
  {
    if i == |s| {
    } else if SentinelAt(s, i) {
      var j := i + |Sentinel|;
      SplitFromCount(s, j, j);
      MatchCountSkip(s, i, j);
    } else {
      SplitFromCount(s, from, i + 1);
    }
  }

  /** `re.split` cuts at every match of `\bDetails\b`: one piece more than there are matches. */
  lemma SplitDetailsCount(s: string)
    ensures |SplitDetails(s)| == 1 + MatchCount(s, 0)
  {
    SplitFromCount(s, 0, 0);
  }

  /** Where the separator after piece `k` begins in `"Details".join(parts)`. */
  function CutAt(parts: seq<string>, k: nat): nat
    requires k < |parts|
  {
    |JoinSentinel(parts[..k + 1])|
  }

  /** The cuts of `[p] + rest` are `|p|`, then those of `rest` moved past `p` and a separator. */
  lemma CutCons(p: string, rest: seq<string>, k: nat)
    requires k <= |rest|
    ensures k == 0 ==> CutAt([p] + rest, k) == |p|
    ensures k > 0 ==> CutAt([p] + rest, k) == |p| + |Sentinel| + CutAt(rest, k - 1)
  {
    var parts := ([p] + rest)[..k + 1];
    assert parts == [p] + rest[..k];
    if k > 0 {
      assert parts[1..] == rest[..k];
    }
  }

  /** Every cut between two of `parts`, shifted by `offset`, is a match in `s`. */
  predicate CutsAreMatches(s: string, offset: nat, parts: seq<string>) {
    forall k :: 0 <= k < |parts| - 1 ==> SentinelAt(s, offset + CutAt(parts, k))
  }

  /** Each cut lies at least one separator past the cut before it. */
  predicate CutsAdvance(parts: seq<string>) {
    forall k :: 0 <= k < |parts| - 2 ==> CutAt(parts, k) + |Sentinel| <= CutAt(parts, k + 1)
  }

  /** Putting the piece before a match in front keeps every cut on a match. */
  lemma CutsConsMatch(s: string, from: nat, i: nat, p: string, rest: seq<string>)
    requires from <= i && SentinelAt(s, i) && |p| == i - from
    requires CutsAreMatches(s, i + |Sentinel|, rest)
    ensures CutsAreMatches(s, from, [p] + rest)
  {
    var r := [p] + rest;
    forall k | 0 <= k < |r| - 1
      ensures SentinelAt(s, from + CutAt(r, k))
    {
      CutCons(p, rest, k);
      if k > 0 {
        assert from + CutAt(r, k) == i + |Sentinel| + CutAt(rest, k - 1);
      }
    }
  }

  /** Putting a piece in front keeps the cuts advancing. */
  lemma CutsConsAdvance(p: string, rest: seq<string>)
    requires CutsAdvance(rest)
    ensures CutsAdvance([p] + rest)
  {
    var r := [p] + rest;
    forall k | 0 <= k < |r| - 2
      ensures CutAt(r, k) + |Sentinel| <= CutAt(r, k + 1)
    {
      CutCons(p, rest, k);
      CutCons(p, rest, k + 1);
    }
  }

  /** Both properties carry over to `r`, the piece ending at a match put in front of the later pieces. */
  lemma CutsCons(s: string, from: nat, i: nat, p: string, rest: seq<string>, r: seq<string>)
    requires from <= i && SentinelAt(s, i) && |p| == i - from && r == [p] + rest
    requires CutsAreMatches(s, i + |Sentinel|, rest) && CutsAdvance(rest)
    ensures CutsAreMatches(s, from, r) && CutsAdvance(r)
  {
    CutsConsMatch(s, from, i, p, rest);
    CutsConsAdvance(p, rest);
  }

  /** At a match, the scan closes the current piece and starts the next one past the separator. */
  lemma SplitFromAtMatch(s: string, from: nat, i: nat)
    requires from <= i < |s| && SentinelAt(s, i)
    ensures SplitFrom(s, from, i) == [s[from..i]] + SplitFrom(s, i + |Sentinel|, i + |Sentinel|)
  {
  }

  lemma {:induction false} SplitFromCuts(s: string, from: nat, i: nat)
    requires from <= i <= |s|
    ensures CutsAreMatches(s, from, SplitFrom(s, from, i)) && CutsAdvance(SplitFrom(s, from, i))
    decreases |s| - i
  {
    var r := SplitFrom(s, from, i);
    if i == |s| {
      assert |r| == 1;
    } else if SentinelAt(s, i) {
      var j := i + |Sentinel|;
      var rest := SplitFrom(s, j, j);
      SplitFromAtMatch(s, from, i);
      SplitFromCuts(s, j, j);
      CutsCons(s, from, i, s[from..i], rest, r);
    } else {
      assert r == SplitFrom(s, from, i + 1);
      SplitFromCuts(s, from, i + 1);
    }
  }

  /**
   * `re.split` cuts only at matches of `\bDetails\b`, each cut past the one
   * before. With `SplitDetailsCount`, the cuts are exactly the matches.
   */
  lemma SplitDetailsCuts(s: string)
    ensures forall k :: 0 <= k < |SplitDetails(s)| - 1 ==> SentinelAt(s, CutAt(SplitDetails(s), k))
    ensures forall k :: 0 <= k < |SplitDetails(s)| - 2 ==>
      CutAt(SplitDetails(s), k) + |Sentinel| <= CutAt(SplitDetails(s), k + 1)
  {
    SplitFromCuts(s, 0, 0);
  }

  /** Joining the pieces with "Details" gives back the text: no character is lost. */
  lemma SplitDetailsJoin(s: string)
    ensures JoinSentinel(SplitDetails(s)) == s
  {
    SplitFromJoin(s, 0, 0);
  }
}
