/** The textual clean-up applied to a response body before `JSON.parse`: the non-standard
    number `NaN` that the prediction service emits is rewritten to `null`.
    Two variants exist: `text.replace(/NaN/g, 'null')` rewrites every occurrence, and
    `text.replace(/\bNaN\b/g, "null")` only those standing alone between word boundaries. */
module NanText {
  import opened Strings

  /** The text starts with the three characters `NaN`. */
  predicate StartsNaN(s: string) {
    |s| >= 3 && s[0] == 'N' && s[1] == 'a' && s[2] == 'N'
  }

  /** `NaN` occurs at position `i`. */
  predicate NaNAt(s: string, i: int) {
    0 <= i <= |s| - 3 && StartsNaN(s[i..])
  }

  predicate HasNaN(s: string) {
    exists i :: 0 <= i < |s| && NaNAt(s, i)
  }

  /** `text.replace(/NaN/g, 'null')`: a left-to-right scan replacing non-overlapping matches. */
  function ReplaceNaN(s: string): string
    decreases |s|
  {
    if StartsNaN(s) then "null" + ReplaceNaN(s[3..])
    else if s == [] then []
    else [s[0]] + ReplaceNaN(s[1..])
  }

  /** An occurrence at or after position 1 of `[c] + t` is an occurrence in `t`. */
  lemma NaNAtCons(c: char, t: string, i: int)
    requires i >= 1
    ensures NaNAt([c] + t, i) <==> NaNAt(t, i - 1)
  {
    if i <= |t| {
      assert ([c] + t)[i..] == t[i - 1..];
    }
  }

  /** No occurrence can start inside the prefix "null" of a text. */
  lemma NaNAtNull(t: string, i: int)
    requires i >= 4
    ensures NaNAt("null" + t, i) <==> NaNAt(t, i - 4)
  {
    if i <= |t| + 3 {
      assert ("null" + t)[i..] == t[i - 4..];
    }
  }

  /** The first character of the rewritten text, and the rewrite of a text that does not start
      with `NaN`. */
  lemma ReplaceNaNHead(s: string)
    ensures s == [] ==> ReplaceNaN(s) == []
    ensures s != [] ==> |ReplaceNaN(s)| > 0 && ReplaceNaN(s)[0] == if StartsNaN(s) then 'n' else s[0]
    ensures s != [] && !StartsNaN(s) ==> ReplaceNaN(s) == [s[0]] + ReplaceNaN(s[1..])
  {
  }

  /** After the global rewrite no `NaN` is left, even where the rewrite joins neighbours. */
  lemma {:induction false} ReplaceNaNLeavesNone(s: string)
    ensures !HasNaN(ReplaceNaN(s))
    decreases |s|
  {
    var r := ReplaceNaN(s);
    if StartsNaN(s) {
      var t := ReplaceNaN(s[3..]);
      ReplaceNaNLeavesNone(s[3..]);
      assert r == "null" + t;
      forall i | 0 <= i < |r| ensures !NaNAt(r, i) {
        if i >= 4 {
          NaNAtNull(t, i);
        } else {
          assert r[i] == "null"[i];
        }
      }
    } else if s != [] {
      var t := ReplaceNaN(s[1..]);
      ReplaceNaNLeavesNone(s[1..]);
      assert r == [s[0]] + t;
      forall i | 0 <= i < |r| ensures !NaNAt(r, i) {
        if i >= 1 {
          NaNAtCons(s[0], t, i);
        } else {
          // r is s[0] followed by t: a `NaN` at its head would have to be made of the
          // copied characters s[0], s[1], s[2], since a rewritten "null" starts with 'n'.
          ReplaceNaNHead(s[1..]);
          if |s| >= 2 {
            ReplaceNaNHead(s[2..]);
          }
        }
      }
    }
  }

  /** Text without `NaN` is returned unchanged. */
  lemma {:induction false} ReplaceNaNIdentity(s: string)
    requires !HasNaN(s)
    ensures ReplaceNaN(s) == s
    decreases |s|
  {
    if s != [] {
      assert !NaNAt(s, 0) by { assert s[0..] == s; }
      assert [s[0]] + s[1..] == s;
      forall i | 0 <= i < |s[1..]| ensures !NaNAt(s[1..], i) {
        NaNAtCons(s[0], s[1..], i + 1);
      }
      ReplaceNaNIdentity(s[1..]);
    }
  }

  /** The rewrite changes the text exactly when the text contains `NaN`. */
  lemma ReplaceNaNChanges(s: string)
    ensures ReplaceNaN(s) == s <==> !HasNaN(s)
  {
    ReplaceNaNLeavesNone(s);
    if !HasNaN(s) {
      ReplaceNaNIdentity(s);
    }
  }

  /** Rewriting twice is the same as rewriting once. */
  lemma ReplaceNaNIdempotent(s: string)
    ensures ReplaceNaN(ReplaceNaN(s)) == ReplaceNaN(s)
  {
    ReplaceNaNLeavesNone(s);
    ReplaceNaNIdentity(ReplaceNaN(s));
  }

  // ---------------------------------------------------------------------------------------
  // What a match becomes: turning every `null` back into `NaN` undoes the rewrite on text that
  // had no `null` of its own, so each match became exactly `null` and every other character
  // was kept in place.

  predicate StartsNull(s: string) {
    |s| >= 4 && s[0] == 'n' && s[1] == 'u' && s[2] == 'l' && s[3] == 'l'
  }

  predicate HasNull(s: string) {
    exists i :: 0 <= i < |s| && StartsNull(s[i..])
  }

  /** The reverse rewrite, `text.replace(/null/g, 'NaN')`. */
  function RestoreNaN(s: string): string
    decreases |s|
  {
    if StartsNull(s) then "NaN" + RestoreNaN(s[4..])
    else if s == [] then []
    else [s[0]] + RestoreNaN(s[1..])
  }

  /** A suffix of a text without `null` has none either. */
  lemma NoNullSuffix(s: string, k: nat)
    requires k <= |s| && !HasNull(s)
    ensures !HasNull(s[k..])
  {
    forall i | 0 <= i < |s[k..]| ensures !StartsNull(s[k..][i..]) {
      assert s[k..][i..] == s[k + i..];
    }
  }

  /** A rewritten text starts with characters other than `n` only where the original did:
      every `null` a match produces starts with `n`. */
  lemma {:induction false} ReplaceNaNPrefix(t: string, p: string)
    requires forall i :: 0 <= i < |p| ==> p[i] != 'n'
    requires |p| <= |ReplaceNaN(t)| && ReplaceNaN(t)[..|p|] == p
    ensures |p| <= |t| && t[..|p|] == p
    decreases |p|
  {
    if p != [] {
      ReplaceNaNHead(t);
      assert ReplaceNaN(t)[0] == p[0];
      if t == [] || StartsNaN(t) {
        assert false;
      } else {
        var r := ReplaceNaN(t[1..]);
        assert ReplaceNaN(t) == [t[0]] + r;
        assert r[..|p| - 1] == p[1..];
        ReplaceNaNPrefix(t[1..], p[1..]);
        assert t[..|p|] == [t[0]] + t[1..][..|p| - 1];
      }
    }
  }

  /** On text without `null`, restoring `NaN` undoes the global rewrite. */
  lemma {:induction false} ReplaceNaNRoundTrip(s: string)
    requires !HasNull(s)
    ensures RestoreNaN(ReplaceNaN(s)) == s
    decreases |s|
  {
    var r := ReplaceNaN(s);
    if StartsNaN(s) {
      NoNullSuffix(s, 3);
      ReplaceNaNRoundTrip(s[3..]);
      assert r[4..] == ReplaceNaN(s[3..]);
      assert s == "NaN" + s[3..];
    } else if s != [] {
      NoNullSuffix(s, 1);
      ReplaceNaNRoundTrip(s[1..]);
      assert r == [s[0]] + ReplaceNaN(s[1..]);
      if StartsNull(r) {
        assert !StartsNull(s[0..]);
        ReplaceNaNPrefix(s[1..], "ull");
        assert false;
      }
      assert s == [s[0]] + s[1..];
    }
  }

  // ---------------------------------------------------------------------------------------
  // The word-boundary variant /\bNaN\b/g.

  /** `NaN` standing alone at position `i`: the character before it (or, at position 0, the
      character before the text, whose word-ness is `prevWord`) and the one after it are not
      word characters. */
  predicate StandaloneAt(s: string, prevWord: bool, i: int) {
    NaNAt(s, i) &&
    (if i == 0 then !prevWord else !IsWordChar(s[i - 1])) &&
    (i + 3 == |s| || !IsWordChar(s[i + 3]))
  }

  predicate HasStandalone(s: string, prevWord: bool) {
    exists i :: 0 <= i < |s| && StandaloneAt(s, prevWord, i)
  }

  /** The scan of `/\bNaN\b/g` over `s`, where `prevWord` says whether the character of the
      original text just before `s` is a word character. After a replacement the previous
      character of the original is the final `N`, a word character. */
  function ReplaceWordNaN(s: string, prevWord: bool): string
    decreases |s|
  {
    if StandaloneAt(s, prevWord, 0) then "null" + ReplaceWordNaN(s[3..], true)
    else if s == [] then []
    else [s[0]] + ReplaceWordNaN(s[1..], IsWordChar(s[0]))
  }

  /** `text.replace(/\bNaN\b/g, "null")`. */
  function ReplaceStandaloneNaN(text: string): string {
    ReplaceWordNaN(text, false)
  }

  lemma StandaloneAtCons(c: char, t: string, prevWord: bool, i: int)
    requires i >= 1
    ensures StandaloneAt([c] + t, prevWord, i) <==> StandaloneAt(t, IsWordChar(c), i - 1)
  {
    NaNAtCons(c, t, i);
  }

  lemma StandaloneAtNull(t: string, prevWord: bool, i: int)
    requires i >= 4
    ensures StandaloneAt("null" + t, prevWord, i) <==> StandaloneAt(t, true, i - 4)
  {
    NaNAtNull(t, i);
  }

  /** After a word character the scan cannot replace at the head: it copies it. */
  lemma AfterWordCopies(t: string)
    requires t != []
    ensures ReplaceWordNaN(t, true) == [t[0]] + ReplaceWordNaN(t[1..], IsWordChar(t[0]))
  {
  }

  /** No standalone `NaN` is left after the word-boundary rewrite. */
  lemma {:induction false} ReplaceWordNaNLeavesNone(s: string, prevWord: bool)
    ensures !HasStandalone(ReplaceWordNaN(s, prevWord), prevWord)
    decreases |s|
  {
    var r := ReplaceWordNaN(s, prevWord);
    if StandaloneAt(s, prevWord, 0) {
      var t := ReplaceWordNaN(s[3..], true);
      ReplaceWordNaNLeavesNone(s[3..], true);
      assert r == "null" + t;
      forall i | 0 <= i < |r| ensures !StandaloneAt(r, prevWord, i) {
        if i >= 4 {
          StandaloneAtNull(t, prevWord, i);
        } else {
          assert r[i] == "null"[i];
        }
      }
    } else if s != [] {
      var t := ReplaceWordNaN(s[1..], IsWordChar(s[0]));
      ReplaceWordNaNLeavesNone(s[1..], IsWordChar(s[0]));
      assert r == [s[0]] + t;
      forall i | 0 <= i < |r| ensures !StandaloneAt(r, prevWord, i) {
        if i >= 1 {
          StandaloneAtCons(s[0], t, prevWord, i);
        } else if |s| >= 2 && s[0] == 'N' {
          // After the word character 'N' the next characters are copied, so a standalone
          // `NaN` at the head of r would be one at the head of s.
          AfterWordCopies(s[1..]);
          if |s| >= 3 && s[1] == 'a' {
            AfterWordCopies(s[2..]);
            assert r[..3] == s[..3];
            if |s| >= 4 && s[2] == 'N' {
              AfterWordCopies(s[3..]);
              assert r[..4] == s[..4];
            }
          }
        }
      }
    }
  }

  /** Text with no standalone `NaN` is returned unchanged. */
  lemma {:induction false} ReplaceWordNaNIdentity(s: string, prevWord: bool)
    requires !HasStandalone(s, prevWord)
    ensures ReplaceWordNaN(s, prevWord) == s
    decreases |s|
  {
    if s != [] {
      assert [s[0]] + s[1..] == s;
      forall i | 0 <= i < |s[1..]| ensures !StandaloneAt(s[1..], IsWordChar(s[0]), i) {
        StandaloneAtCons(s[0], s[1..], prevWord, i + 1);
      }
      ReplaceWordNaNIdentity(s[1..], IsWordChar(s[0]));
    }
  }

  /** A standalone `NaN` needs a `NaN`: text without any is left alone. */
  lemma NoNaNNoStandalone(s: string, prevWord: bool)
    requires !HasNaN(s)
    ensures !HasStandalone(s, prevWord)
  {
  }

  /** The word-boundary rewrite changes the text exactly when a standalone `NaN` occurs,
      leaves text without `NaN` unchanged, and is idempotent. */
  lemma ReplaceStandaloneNaNProperties(text: string)
    ensures ReplaceStandaloneNaN(text) == text <==> !HasStandalone(text, false)
    ensures !HasNaN(text) ==> ReplaceStandaloneNaN(text) == text
    ensures !HasStandalone(ReplaceStandaloneNaN(text), false)
    ensures ReplaceStandaloneNaN(ReplaceStandaloneNaN(text)) == ReplaceStandaloneNaN(text)
  {
    var r := ReplaceStandaloneNaN(text);
    ReplaceWordNaNLeavesNone(text, false);
    ReplaceWordNaNLeavesNone(r, false);
    ReplaceWordNaNIdentity(r, false);
    if !HasStandalone(text, false) {
      ReplaceWordNaNIdentity(text, false);
    }
  }

  /** The word-boundary counterpart of `ReplaceNaNPrefix`. */
  lemma {:induction false} ReplaceWordNaNPrefix(t: string, prevWord: bool, p: string)
    requires forall i :: 0 <= i < |p| ==> p[i] != 'n'
    requires |p| <= |ReplaceWordNaN(t, prevWord)| && ReplaceWordNaN(t, prevWord)[..|p|] == p
    ensures |p| <= |t| && t[..|p|] == p
    decreases |p|
  {
    if p != [] {
      assert ReplaceWordNaN(t, prevWord)[0] == p[0];
      if t == [] || StandaloneAt(t, prevWord, 0) {
        assert false;
      } else {
        var r := ReplaceWordNaN(t[1..], IsWordChar(t[0]));
        assert ReplaceWordNaN(t, prevWord) == [t[0]] + r;
        assert r[..|p| - 1] == p[1..];
        ReplaceWordNaNPrefix(t[1..], IsWordChar(t[0]), p[1..]);
        assert t[..|p|] == [t[0]] + t[1..][..|p| - 1];
      }
    }
  }

  /** On text without `null`, restoring `NaN` undoes the word-boundary rewrite as well: every
      standalone match became `null` and everything else was kept. */
  lemma {:induction false} ReplaceWordNaNRoundTrip(s: string, prevWord: bool)
    requires !HasNull(s)
    ensures RestoreNaN(ReplaceWordNaN(s, prevWord)) == s
    decreases |s|
  {
    var r := ReplaceWordNaN(s, prevWord);
    if StandaloneAt(s, prevWord, 0) {
      NoNullSuffix(s, 3);
      ReplaceWordNaNRoundTrip(s[3..], true);
      assert r[4..] == ReplaceWordNaN(s[3..], true);
      assert s == "NaN" + s[3..];
    } else if s != [] {
      NoNullSuffix(s, 1);
      ReplaceWordNaNRoundTrip(s[1..], IsWordChar(s[0]));
      assert r == [s[0]] + ReplaceWordNaN(s[1..], IsWordChar(s[0]));
      if StartsNull(r) {
        assert !StartsNull(s[0..]);
        ReplaceWordNaNPrefix(s[1..], IsWordChar(s[0]), "ull");
        assert false;
      }
      assert s == [s[0]] + s[1..];
    }
  }

  /** A `NaN` between punctuation is replaced by the word-boundary rewrite. */
  lemma StandaloneExample()
    ensures ReplaceStandaloneNaN("[NaN,1]") == "[null,1]"
  {
    var s := "[NaN,1]";
    assert !StandaloneAt(s, false, 0);
    assert s[1..] == "NaN,1]";
    assert StandaloneAt("NaN,1]", false, 0);
    assert "NaN,1]"[3..] == ",1]";
    assert ",1]"[1..] == "1]";
    assert "1]"[1..] == "]";
    assert "]"[1..] == [];
  }

  /** A `NaN` glued to a word character is kept by the word-boundary rewrite but replaced by
      the global one: the two variants differ on "NaNa". */
  lemma VariantsDiffer()
    ensures ReplaceStandaloneNaN("NaNa") == "NaNa"
    ensures ReplaceNaN("NaNa") == "nulla"
  {
    assert !StandaloneAt("NaNa", false, 0);
    assert "NaNa"[1..] == "aNa";
    assert "aNa"[1..] == "Na";
    assert "Na"[1..] == "a";
    assert "NaNa"[3..] == "a";
    assert "a"[1..] == [];
  }
}
