/**
 * The string primitives the extractor relies on, written out so that their
 * edge cases are explicit: Python's whitespace set, `strip()`, `split()`,
 * `" ".join(...)`, substring search, `split(":", 1)`, digit tests and the
 * decimal rendering of integers.
 */
module Text {

  /** Python's `str.isspace()`: the code points `split()` and `strip()` treat as whitespace. */
  predicate IsSpace(c: char) {
    || ('\t' <= c <= '\r')
    || ('\U{1C}' <= c <= '\U{1F}')
    || c == ' '
    || c == '\U{85}'
    || c == '\U{A0}'
    || c == '\U{1680}'
    || ('\U{2000}' <= c <= '\U{200A}')
    || c == '\U{2028}'
    || c == '\U{2029}'
    || c == '\U{202F}'
    || c == '\U{205F}'
    || c == '\U{3000}'
  }

  predicate AllSpace(s: string) {
    forall i | 0 <= i < |s| :: IsSpace(s[i])
  }

  predicate NoSpace(s: string) {
    forall i | 0 <= i < |s| :: !IsSpace(s[i])
  }

  /** Blank text is blank after its first character, and the other way round. */
  lemma AllSpaceTail(s: string)
    requires s != ""
    ensures AllSpace(s) <==> IsSpace(s[0]) && AllSpace(s[1..])
  {
    assert forall i | 0 <= i < |s[1..]| :: s[1..][i] == s[i + 1];
  }

  /** Blank text is blank before its last character, and the other way round. */
  lemma AllSpaceInit(s: string)
    requires s != ""
    ensures AllSpace(s) <==> IsSpace(s[|s| - 1]) && AllSpace(s[..|s| - 1])
  {
    assert forall i | 0 <= i < |s| - 1 :: s[..|s| - 1][i] == s[i];
  }

  /** Python's `str.lstrip()`: `s` without its leading whitespace. */
  function TrimStart(s: string): (r: string)
    ensures r == "" <==> AllSpace(s)
    ensures r != "" ==> !IsSpace(r[0])
    decreases |s|
  {
    if s != "" && IsSpace(s[0]) then
      AllSpaceTail(s);
      TrimStart(s[1..])
    else s
  }

  /** Python's `str.rstrip()`: `s` without its trailing whitespace. */
  function TrimEnd(s: string): (r: string)
    ensures r == "" <==> AllSpace(s)
    ensures r != "" ==> !IsSpace(r[|r| - 1]) && r[0] == s[0]
    decreases |s|
  {
    if s != "" && IsSpace(s[|s| - 1]) then
      AllSpaceInit(s);
      TrimEnd(s[..|s| - 1])
    else s
  }

  /**
   * Python's `str.strip()`: `s` without its leading and trailing whitespace.
   * It is empty exactly for blank text, and otherwise starts and ends with a
   * non-space character.
   */
  function Strip(s: string): (r: string)
    ensures r == "" <==> AllSpace(s)
    ensures r != "" ==> !IsSpace(r[0]) && !IsSpace(r[|r| - 1])
  {
    var t := TrimStart(s);
    assert t != "" ==> !AllSpace(t);
    TrimEnd(t)
  }

  /** `lstrip()` cuts a blank prefix. */
  lemma {:induction false} TrimStartCuts(s: string)
    ensures exists i | 0 <= i <= |s| :: TrimStart(s) == s[i..] && AllSpace(s[..i])
    decreases |s|
  {
    if s != "" && IsSpace(s[0]) {
      TrimStartCuts(s[1..]);
      var i :| 0 <= i <= |s[1..]| && TrimStart(s[1..]) == s[1..][i..] && AllSpace(s[1..][..i]);
      assert s[1..][i..] == s[i + 1..];
      assert s[..i + 1][1..] == s[1..][..i];
      AllSpaceTail(s[..i + 1]);
    } else {
      assert s[0..] == s;
    }
  }

  /** `rstrip()` cuts a blank suffix. */
  lemma {:induction false} TrimEndCuts(s: string)
    ensures exists j | 0 <= j <= |s| :: TrimEnd(s) == s[..j] && AllSpace(s[j..])
    decreases |s|
  {
    if s != "" && IsSpace(s[|s| - 1]) {
      var init := s[..|s| - 1];
      TrimEndCuts(init);
      var j :| 0 <= j <= |init| && TrimEnd(init) == init[..j] && AllSpace(init[j..]);
      assert init[..j] == s[..j];
      assert s[j..][..|s[j..]| - 1] == init[j..];
      AllSpaceInit(s[j..]);
    } else {
      assert s[..|s|] == s;
    }
  }

  /**
   * `strip()` cuts only whitespace: the result is a slice of `s` with blank
   * text before and after it.
   */
  lemma StripCuts(s: string)
    ensures exists i, j | 0 <= i <= j <= |s| :: Strip(s) == s[i..j] && AllSpace(s[..i]) && AllSpace(s[j..])
  {
    TrimStartCuts(s);
    var i :| 0 <= i <= |s| && TrimStart(s) == s[i..] && AllSpace(s[..i]);
    var t := s[i..];
    TrimEndCuts(t);
    var j :| 0 <= j <= |t| && TrimEnd(t) == t[..j] && AllSpace(t[j..]);
    SliceOfSlice(s, i, j);
    assert Strip(s) == TrimEnd(t);
    assert Strip(s) == s[i..i + j] && AllSpace(s[..i]) && AllSpace(s[i + j..]);
  }

  lemma SliceOfSlice(s: string, i: nat, j: nat)
    requires i + j <= |s|
    ensures s[i..][..j] == s[i..i + j] && s[i..][j..] == s[i + j..]
  {
  }

  /** A character that does not occur in `s` does not occur in `strip(s)`. */
  lemma StripKeepsAbsent(s: string, ch: char)
    requires forall c | 0 <= c < |s| :: s[c] != ch
    ensures forall c | 0 <= c < |Strip(s)| :: Strip(s)[c] != ch
  {
    StripCuts(s);
    var i, j :| 0 <= i <= j <= |s| && Strip(s) == s[i..j];
    forall c | 0 <= c < |Strip(s)| ensures Strip(s)[c] != ch {
      assert Strip(s)[c] == s[i + c];
    }
  }

  /** A string with no whitespace at either end is its own `strip()`. */
  lemma StripTrimmed(s: string)
    requires s != "" ==> !IsSpace(s[0]) && !IsSpace(s[|s| - 1])
    ensures Strip(s) == s
  {
    assert TrimStart(s) == s;
  }

  /** Stripping twice is stripping once. */
  lemma StripIdempotent(s: string)
    ensures Strip(Strip(s)) == Strip(s)
  {
    StripTrimmed(Strip(s));
  }

  /** The length of the run of non-space characters that starts `s`. */
  function WordLength(s: string): (n: nat)
    ensures n <= |s| && NoSpace(s[..n])
    ensures n < |s| ==> IsSpace(s[n])
  {
    if s != "" && !IsSpace(s[0]) then
      var m := WordLength(s[1..]);
      assert s[..1 + m] == [s[0]] + s[1..][..m];
      1 + m
    else 0
  }

  /** Python's `str.split()` with no argument: the maximal runs of non-space characters, in order. */
  function Words(s: string): (ws: seq<string>)
    ensures forall i | 0 <= i < |ws| :: ws[i] != "" && NoSpace(ws[i])
    ensures ws == [] <==> AllSpace(s)
    decreases |s|
  {
    if s == "" then []
    else if IsSpace(s[0]) then
      var ws := Words(s[1..]);
      assert AllSpace(s[1..]) ==> AllSpace(s) by {
        if AllSpace(s[1..]) {
          forall i | 0 <= i < |s| ensures IsSpace(s[i]) {
            if i > 0 { assert s[i] == s[1..][i - 1]; }
          }
        }
      }
      ws
    else
      var n := WordLength(s);
      [s[..n]] + Words(s[n..])
  }

  /** Python's `" ".join(ws)`. */
  function JoinWords(ws: seq<string>): string {
    if |ws| == 0 then ""
    else if |ws| == 1 then ws[0]
    else ws[0] + " " + JoinWords(ws[1..])
  }

  /**
   * `" ".join(s.split())`, the normalisation `first_text` applies: every run
   * of whitespace becomes one space and the ends are trimmed. It is empty
   * exactly when `s` is blank, and it keeps the words of `s` unchanged.
   */
  function Collapse(s: string): (r: string)
    ensures r == "" <==> AllSpace(s)
    ensures r != "" ==> !IsSpace(r[0]) && !IsSpace(r[|r| - 1])
    ensures Words(r) == Words(s)
    ensures forall i | 0 <= i < |r| && IsSpace(r[i]) :: r[i] == ' ' && i + 1 < |r| && !IsSpace(r[i + 1])
  {
    var ws := Words(s);
    WordsOfJoin(ws);
    JoinWordsEmpty(ws);
    JoinWordsSeparators(ws);
    if ws != [] then JoinWordsEnds(ws); JoinWords(ws) else ""
  }

  /** Joined non-empty words start with the first word's first character and end with the last word's last. */
  lemma {:induction false} JoinWordsEnds(ws: seq<string>)
    requires ws != [] && forall i | 0 <= i < |ws| :: ws[i] != ""
    ensures var r := JoinWords(ws); |r| > 0 && r[0] == ws[0][0] && r[|r| - 1] == ws[|ws| - 1][|ws[|ws| - 1]| - 1]
  {
    if |ws| > 1 {
      JoinWordsEnds(ws[1..]);
      assert ws[1..][|ws[1..]| - 1] == ws[|ws| - 1];
    }
  }

  /** Between joined words there is exactly one ASCII space, and no other whitespace. */
  lemma {:induction false} JoinWordsSeparators(ws: seq<string>)
    requires forall i | 0 <= i < |ws| :: ws[i] != "" && NoSpace(ws[i])
    ensures var r := JoinWords(ws);
      forall i | 0 <= i < |r| && IsSpace(r[i]) :: r[i] == ' ' && i + 1 < |r| && !IsSpace(r[i + 1])
  {
    if |ws| > 1 {
      var w, rest := ws[0], JoinWords(ws[1..]);
      JoinWordsSeparators(ws[1..]);
      JoinWordsEnds(ws[1..]);
      var r := w + " " + rest;
      assert JoinWords(ws) == r;
      assert !IsSpace(rest[0]);
      forall i | 0 <= i < |r| ensures IsSpace(r[i]) ==> r[i] == ' ' && i + 1 < |r| && !IsSpace(r[i + 1]) {
        if i < |w| {
          assert r[i] == w[i];
        } else if i == |w| {
          assert r[i + 1] == rest[0];
        } else {
          assert r[i] == rest[i - |w| - 1];
          assert i + 1 < |r| ==> r[i + 1] == rest[i - |w|];
        }
      }
    }
  }

  /** Joining non-empty words gives the empty string only for no words at all. */
  lemma {:induction false} JoinWordsEmpty(ws: seq<string>)
    requires forall i | 0 <= i < |ws| :: ws[i] != ""
    ensures JoinWords(ws) == "" <==> ws == []
  {
    if |ws| > 1 {
      assert |JoinWords(ws)| >= |ws[0]|;
    }
  }

  /** Splitting words that were joined with single spaces gives them back. */
  lemma {:induction false} WordsOfJoin(ws: seq<string>)
    requires forall i | 0 <= i < |ws| :: ws[i] != "" && NoSpace(ws[i])
    ensures Words(JoinWords(ws)) == ws
  {
    if |ws| == 1 {
      var w := ws[0];
      assert WordLength(w) == |w|;
      assert w[..|w|] == w && w[|w|..] == "";
    } else if |ws| > 1 {
      var w, rest := ws[0], JoinWords(ws[1..]);
      var s := w + " " + rest;
      assert s[|w|] == ' ';
      var n := WordLength(s);
      assert n == |w|;
      assert s[..n] == w;
      assert s[n..] == " " + rest;
      assert (" " + rest)[1..] == rest;
      WordsOfJoin(ws[1..]);
      assert ws == [w] + ws[1..];
    }
  }

  /** `seps[0] + ws[0] + seps[1] + ... + ws[|ws| - 1] + seps[|ws|]`. */
  function Interleave(seps: seq<string>, ws: seq<string>): string
    requires |seps| == |ws| + 1
    decreases |ws|
  {
    if ws == [] then seps[0] else seps[0] + ws[0] + Interleave(seps[1..], ws[1..])
  }

  /**
   * `seps` can stand between the words `ws`: every separator is blank, the
   * ones between two words are not empty, and the outer two may be.
   */
  predicate Separators(seps: seq<string>, ws: seq<string>) {
    && |seps| == |ws| + 1
    && (forall i | 0 <= i < |seps| :: AllSpace(seps[i]))
    && (forall i | 0 < i < |ws| :: seps[i] != "")
  }

  /** Leading whitespace makes no word. */
  lemma {:induction false} WordsSkipBlank(b: string, t: string)
    requires AllSpace(b)
    ensures Words(b + t) == Words(t)
    decreases |b|
  {
    if b == "" {
      assert b + t == t;
    } else {
      assert IsSpace((b + t)[0]);
      assert (b + t)[1..] == b[1..] + t;
      WordsSkipBlank(b[1..], t);
    }
  }

  /** The word starting `w + t` is exactly `w` when `t` is empty or starts with whitespace. */
  lemma {:induction false} WordLengthOf(w: string, t: string)
    requires NoSpace(w)
    requires t == "" || IsSpace(t[0])
    ensures WordLength(w + t) == |w|
    decreases |w|
  {
    if w == "" {
      assert w + t == t;
    } else {
      assert (w + t)[0] == w[0];
      assert (w + t)[1..] == w[1..] + t;
      assert NoSpace(w[1..]) by {
        forall i | 0 <= i < |w[1..]| ensures !IsSpace(w[1..][i]) {
          assert w[1..][i] == w[i + 1];
        }
      }
      WordLengthOf(w[1..], t);
    }
  }

  /** A run of non-space characters ended by whitespace or by the end of the text is one word. */
  lemma WordsTakeWord(w: string, t: string)
    requires w != "" && NoSpace(w)
    requires t == "" || IsSpace(t[0])
    ensures Words(w + t) == [w] + Words(t)
  {
    var s := w + t;
    assert !IsSpace(s[0]);
    WordLengthOf(w, t);
    assert s[..|w|] == w && s[|w|..] == t;
  }

  /**
   * `split()` finds exactly the words of any text built from words and
   * whitespace runs: whatever blanks lead, trail or separate them, the words
   * come back in order.
   */
  lemma {:induction false} WordsOfSpaced(seps: seq<string>, ws: seq<string>)
    requires forall i | 0 <= i < |ws| :: ws[i] != "" && NoSpace(ws[i])
    requires Separators(seps, ws)
    ensures Words(Interleave(seps, ws)) == ws
    decreases |ws|
  {
    if ws == [] {
      assert AllSpace(seps[0]);
    } else {
      var rest := Interleave(seps[1..], ws[1..]);
      assert Interleave(seps, ws) == seps[0] + (ws[0] + rest);
      WordsSkipBlank(seps[0], ws[0] + rest);
      if |ws| > 1 {
        assert seps[1] != "" && AllSpace(seps[1]);
        assert rest[0] == seps[1][0];
      } else {
        assert rest == seps[1];
      }
      WordsTakeWord(ws[0], rest);
      assert Separators(seps[1..], ws[1..]) by {
        forall i | 0 < i < |ws[1..]| ensures seps[1..][i] != "" {
          assert seps[1..][i] == seps[i + 1];
        }
      }
      WordsOfSpaced(seps[1..], ws[1..]);
      assert ws == [ws[0]] + ws[1..];
    }
  }

  /**
   * `split()` characterised: the words of `s` are `ws` exactly when `s` is
   * `ws` interleaved with blank separators, non-empty between two words.
   */
  lemma WordsMeaning(s: string, ws: seq<string>)
    requires forall i | 0 <= i < |ws| :: ws[i] != "" && NoSpace(ws[i])
    ensures Words(s) == ws <==> exists seps :: Separators(seps, ws) && Interleave(seps, ws) == s
  {
    if Words(s) == ws {
      WordsDecompose(s);
    } else if exists seps :: Separators(seps, ws) && Interleave(seps, ws) == s {
      var seps :| Separators(seps, ws) && Interleave(seps, ws) == s;
      WordsOfSpaced(seps, ws);
    }
  }

  /** Every text is its own words, interleaved with blank separators. */
  lemma {:induction false} WordsDecompose(s: string)
    ensures exists seps :: Separators(seps, Words(s)) && Interleave(seps, Words(s)) == s
    decreases |s|
  {
    var ws := Words(s);
    if s == "" {
      assert Separators([""], ws) && Interleave([""], ws) == s;
    } else if IsSpace(s[0]) {
      assert ws == Words(s[1..]);
      WordsDecompose(s[1..]);
      var seps :| Separators(seps, ws) && Interleave(seps, ws) == s[1..];
      DecomposeLead(seps, ws, s[0]);
      assert [s[0]] + s[1..] == s;
    } else {
      var n := WordLength(s);
      var w, rest := s[..n], s[n..];
      assert ws == [w] + Words(rest);
      WordsDecompose(rest);
      var seps :| Separators(seps, Words(rest)) && Interleave(seps, Words(rest)) == rest;
      DecomposeWord(w, rest, seps, Words(rest));
      assert w + rest == s;
    }
  }

  /** A whitespace character put before a decomposition extends its first separator. */
  lemma DecomposeLead(seps: seq<string>, ws: seq<string>, c: char)
    requires IsSpace(c) && Separators(seps, ws)
    ensures var seps' := [[c] + seps[0]] + seps[1..];
      Separators(seps', ws) && Interleave(seps', ws) == [c] + Interleave(seps, ws)
  {
    var seps' := [[c] + seps[0]] + seps[1..];
    InterleaveLead(seps, ws, [c]);
    assert AllSpace([c] + seps[0]) by {
      forall i | 0 <= i < |[c] + seps[0]| ensures IsSpace(([c] + seps[0])[i]) {
        if i > 0 { assert ([c] + seps[0])[i] == seps[0][i - 1]; }
      }
    }
    assert forall i | 0 < i < |seps'| :: seps'[i] == seps[i];
  }

  /** A word put before a decomposition that starts blank or is empty becomes its first word. */
  lemma DecomposeWord(w: string, rest: string, seps: seq<string>, wr: seq<string>)
    requires w != "" && NoSpace(w)
    requires rest == "" || IsSpace(rest[0])
    requires forall i | 0 <= i < |wr| :: wr[i] != "" && NoSpace(wr[i])
    requires Separators(seps, wr) && Interleave(seps, wr) == rest
    ensures Separators([""] + seps, [w] + wr) && Interleave([""] + seps, [w] + wr) == w + rest
  {
    var seps', ws := [""] + seps, [w] + wr;
    assert seps'[1..] == seps && ws[1..] == wr;
    assert Interleave(seps', ws) == "" + w + Interleave(seps, wr);
    assert wr != [] ==> seps[0] != "" by {
      if wr != [] && seps[0] == "" {
        InterleaveFirst(seps, wr);
      }
    }
    forall i | 0 <= i < |seps'|
      ensures AllSpace(seps'[i]) && (0 < i < |ws| ==> seps'[i] != "")
    {
      if i > 0 {
        assert seps'[i] == seps[i - 1];
      }
    }
  }

  /** With an empty first separator, the text starts with the first word. */
  lemma InterleaveFirst(seps: seq<string>, ws: seq<string>)
    requires |seps| == |ws| + 1 && ws != [] && ws[0] != "" && seps[0] == ""
    ensures var r := Interleave(seps, ws); r != "" && r[0] == ws[0][0]
  {
    assert Interleave(seps, ws) == ws[0] + Interleave(seps[1..], ws[1..]);
  }

  /** Blank text put before the first separator ends up before the whole text. */
  lemma InterleaveLead(seps: seq<string>, ws: seq<string>, b: string)
    requires |seps| == |ws| + 1
    ensures Interleave([b + seps[0]] + seps[1..], ws) == b + Interleave(seps, ws)
  {
    var seps' := [b + seps[0]] + seps[1..];
    assert seps'[1..] == seps[1..];
  }

  /** Collapsing twice is collapsing once. */
  lemma CollapseIdempotent(s: string)
    ensures Collapse(Collapse(s)) == Collapse(s)
  {
    assert Words(Collapse(s)) == Words(s);
  }

  predicate IsPrefix(p: string, s: string) {
    |p| <= |s| && s[..|p|] == p
  }

  /** Python's `t in s` for two strings: `t` occurs in `s` as a contiguous block. */
  predicate Contains(s: string, t: string)
    decreases |s|
  {
    IsPrefix(t, s) || (s != "" && Contains(s[1..], t))
  }

  /** `t` occurs in `s` starting at position `i`. */
  predicate OccursAt(s: string, t: string, i: nat) {
    i + |t| <= |s| && s[i..i + |t|] == t
  }

  /** `t in s` holds exactly when `t` occurs at some position of `s`. */
  lemma ContainsMeaning(s: string, t: string)
    ensures Contains(s, t) <==> exists i: nat :: OccursAt(s, t, i)
  {
    if Contains(s, t) {
      ContainsSomewhere(s, t);
    } else {
      forall i: nat ensures !OccursAt(s, t, i) {
        if OccursAt(s, t, i) {
          ContainsAt(s, t, i);
        }
      }
    }
  }

  /** Where `Contains` holds, `t` occurs at some position. */
  lemma {:induction false} ContainsSomewhere(s: string, t: string)
    requires Contains(s, t)
    ensures exists i: nat :: OccursAt(s, t, i)
    decreases |s|
  {
    if IsPrefix(t, s) {
      assert OccursAt(s, t, 0);
    } else {
      ContainsSomewhere(s[1..], t);
      var i: nat :| OccursAt(s[1..], t, i);
      assert s[i + 1..i + 1 + |t|] == s[1..][i..i + |t|];
      assert OccursAt(s, t, i + 1);
    }
  }

  /** An occurrence of `t` at position `i` makes `Contains` hold. */
  lemma {:induction false} ContainsAt(s: string, t: string, i: nat)
    requires OccursAt(s, t, i)
    ensures Contains(s, t)
    decreases i
  {
    if i > 0 {
      assert s[1..][i - 1..i - 1 + |t|] == s[i..i + |t|];
      ContainsAt(s[1..], t, i - 1);
    } else {
      assert s[..|t|] == t;
    }
  }

  /** ASCII lower-casing of one character. */
  function LowerChar(c: char): char {
    if 'A' <= c <= 'Z' then (c as int + 32) as char else c
  }

  /** `str.lower()`, restricted to the ASCII letters. */
  function Lower(s: string): (r: string)
    ensures |r| == |s|
    ensures forall i | 0 <= i < |s| :: r[i] == LowerChar(s[i])
  {
    seq(|s|, i requires 0 <= i < |s| => LowerChar(s[i]))
  }

  /** The index of the first `c` in `s`, or `|s|` when there is none. */
  function IndexOf(s: string, c: char): (i: nat)
    ensures i <= |s|
    ensures i < |s| ==> s[i] == c
    ensures forall j | 0 <= j < i :: s[j] != c
  {
    if s == "" then 0
    else if s[0] == c then 0
    else 1 + IndexOf(s[1..], c)
  }

  /** `s[:n]` for a non-negative `n`. */
  function Prefix(s: string, n: nat): (r: string)
    ensures |r| == if |s| <= n then |s| else n
    ensures IsPrefix(r, s)
  {
    if |s| <= n then s else s[..n]
  }

  predicate IsDigit(c: char) {
    '0' <= c <= '9'
  }

  /** `re.search(r"\d", s)` succeeds: `s` holds some digit. */
  predicate HasDigit(s: string) {
    exists i | 0 <= i < |s| :: IsDigit(s[i])
  }

  /** Python's `str.isdigit()`: non-empty and made of digits only. */
  predicate IsAllDigits(s: string) {
    s != "" && forall i | 0 <= i < |s| :: IsDigit(s[i])
  }

  function DigitChar(d: nat): char
    requires d < 10
  {
    ('0' as int + d) as char
  }

  /** The value of a string of decimal digits. */
  function DecimalValue(s: string): nat
    requires forall i | 0 <= i < |s| :: IsDigit(s[i])
  {
    if s == "" then 0
    else
      assert IsDigit(s[|s| - 1]);
      10 * DecimalValue(s[..|s| - 1]) + (s[|s| - 1] as int - '0' as int)
  }

  /** Python's `str(n)` for a natural number: its decimal digits, with no leading zero. */
  function NatToString(n: nat): (r: string)
    ensures IsAllDigits(r)
    ensures DecimalValue(r) == n
    ensures |r| > 1 ==> r[0] != '0'
    ensures n > 0 ==> r[0] != '0'
  {
    if n < 10 then [DigitChar(n)]
    else
      var r := NatToString(n / 10) + [DigitChar(n % 10)];
      assert r[..|r| - 1] == NatToString(n / 10);
      r
  }

  /** Python's `str(n)` for an integer: a minus sign precedes the digits of a negative number. */
  function IntToString(n: int): (r: string)
    ensures |r| > 0
    ensures n >= 0 ==> IsAllDigits(r) && DecimalValue(r) == n
    ensures n < 0 ==> r[0] == '-' && IsAllDigits(r[1..]) && DecimalValue(r[1..]) == -n
    ensures n >= 0 && |r| > 1 ==> r[0] != '0'
    ensures n < 0 ==> |r| > 1 && r[1] != '0'
  {
    if n >= 0 then NatToString(n)
    else
      var r := "-" + NatToString(-n);
      assert r[1..] == NatToString(-n);
      r
  }
}
