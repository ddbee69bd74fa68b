/**
 * `process_text_for_whatsapp`: delete 【…】 citation segments, strip the
 * edges, then turn Markdown `**bold**` into WhatsApp `*bold*`.
 *
 * Each of the two `re.sub` calls is written as a scanner with the semantics
 * of Python's regex engine for its one fixed pattern: at each position try a
 * match; the lazy `.*?` takes as few characters as possible and `.` matches
 * anything but a newline; a successful match is replaced and scanning resumes
 * after it, a failed attempt keeps the character and resumes one further on.
 */
module WhatsAppText {
  import opened Wrappers

  const OpenCite: char := '\U{3010}'   // 【
  const CloseCite: char := '\U{3011}'  // 】

  /** Python's `str.isspace()`: the characters `str.strip()` removes. */
  predicate IsSpace(c: char) {
    || c == ' '
    || ('\U{9}' <= c <= '\U{D}')
    || ('\U{1C}' <= c <= '\U{1F}')
    || c == '\U{85}' || c == '\U{A0}' || c == '\U{1680}'
    || ('\U{2000}' <= c <= '\U{200A}')
    || c == '\U{2028}' || c == '\U{2029}' || c == '\U{202F}'
    || c == '\U{205F}' || c == '\U{3000}'
  }

  /** `s` contains no `**`. */
  predicate NoDoubleStar(s: string) {
    forall k :: 0 <= k < |s| - 1 ==> !(s[k] == '*' && s[k + 1] == '*')
  }

  predicate NoNewline(s: string) {
    forall k :: 0 <= k < |s| ==> s[k] != '\n'
  }

  // ---------------------------------------------------------------------------
  // Pass 1: re.sub(r"\【.*?\】", "", text)
  // ---------------------------------------------------------------------------

  /**
   * Where the lazy `.*?` of the citation pattern stops when the `【` sits just
   * before `from`: the first `】` at or after `from`, unless a newline comes
   * first (then the attempt fails).
   */
  function CiteClose(s: string, from: nat): (r: Option<nat>)
    requires from <= |s|
    ensures r.Some? ==> from <= r.value < |s| && s[r.value] == CloseCite
    ensures r.Some? ==> forall k :: from <= k < r.value ==> s[k] != CloseCite && s[k] != '\n'
    ensures r.None? ==> forall k :: from <= k < |s| && s[k] == CloseCite ==> '\n' in s[from..k]
    decreases |s| - from
  {
    if from == |s| || s[from] == '\n' then None
    else if s[from] == CloseCite then Some(from)
    else
      var r := CiteClose(s, from + 1);
      assert r.None? ==> forall k :: from < k < |s| && s[k] == CloseCite ==> s[from + 1..k] <= s[from..k][1..];
      r
  }

  /** The first pass: every citation segment deleted with both delimiters. */
  function StripCitations(s: string): (r: string)
    ensures |r| <= |s|
    decreases |s|
  {
    if s == [] then []
    else if s[0] == OpenCite then
      match CiteClose(s, 1)
      case Some(j) => StripCitations(s[j + 1..])
      case None => [s[0]] + StripCitations(s[1..])
    else [s[0]] + StripCitations(s[1..])
  }

  // ---------------------------------------------------------------------------
  // str.strip()
  // ---------------------------------------------------------------------------

  function TrimStart(s: string): (r: string)
    ensures |r| <= |s| && r == s[|s| - |r|..]
    ensures r == [] || !IsSpace(r[0])
    ensures forall k :: 0 <= k < |s| - |r| ==> IsSpace(s[k])
    decreases |s|
  {
    if s != [] && IsSpace(s[0]) then TrimStart(s[1..]) else s
  }

  function TrimEnd(s: string): (r: string)
    ensures |r| <= |s| && r == s[..|r|]
    ensures r == [] || !IsSpace(r[|r| - 1])
    ensures forall k :: |r| <= k < |s| ==> IsSpace(s[k])
    decreases |s|
  {
    if s != [] && IsSpace(s[|s| - 1]) then TrimEnd(s[..|s| - 1]) else s
  }

  /** `str.strip()`: the longest slice of `s` without white space at either edge. */
  function Strip(s: string): (r: string)
    ensures r == [] || (!IsSpace(r[0]) && !IsSpace(r[|r| - 1]))
    ensures |r| <= |s|
    ensures forall k :: 0 <= k < |s| && !IsSpace(s[k]) ==> r != []
    ensures exists a, b :: (0 <= a <= b <= |s| && r == s[a..b]
      && forall k :: (0 <= k < a || b <= k < |s|) ==> IsSpace(s[k]))
  {
    var t := TrimStart(s);
    var a := |s| - |t|;
    var r := TrimEnd(t);
    assert r != [] ==> r[0] == t[0];
    assert r == s[a..a + |r|];
    r
  }

  // ---------------------------------------------------------------------------
  // Pass 2: re.sub(r"\*\*(.*?)\*\*", r"*\1*", text)
  // ---------------------------------------------------------------------------

  /**
   * Where the lazy group of the bold pattern ends when the opening `**` sits
   * just before `from`: the first `**` at or after `from`, unless a newline
   * comes first.
   */
  function BoldClose(s: string, from: nat): (r: Option<nat>)
    requires from <= |s|
    ensures r.Some? ==> from <= r.value && r.value + 1 < |s| && s[r.value] == '*' && s[r.value + 1] == '*'
    ensures r.Some? ==> forall k :: from <= k < r.value ==> s[k] != '\n' && !(s[k] == '*' && s[k + 1] == '*')
    ensures r.None? ==> forall k :: from <= k < |s| - 1 && s[k] == '*' && s[k + 1] == '*' ==> '\n' in s[from..k]
    decreases |s| - from
  {
    if from + 1 >= |s| then None
    else if s[from] == '*' && s[from + 1] == '*' then Some(from)
    else if s[from] == '\n' then None
    else
      var r := BoldClose(s, from + 1);
      assert r.None? ==> forall k :: from < k < |s| && s[k] == '*' ==> s[from + 1..k] <= s[from..k][1..];
      r
  }

  /** The second pass: `**x**` becomes `*x*`, matches taken left to right. */
  function Bold(s: string): (r: string)
    ensures |r| <= |s|
    ensures s != [] ==> r != [] && r[0] == s[0] && r[|r| - 1] == s[|s| - 1]
    decreases |s|
  {
    if |s| < 2 then s
    else if s[0] == '*' && s[1] == '*' then
      match BoldClose(s, 2)
      case Some(k) =>
        var rest := Bold(s[k + 2..]);
        assert rest == [] ==> k + 2 == |s|;
        ['*'] + s[2..k] + ['*'] + rest
      case None => [s[0]] + Bold(s[1..])
    else [s[0]] + Bold(s[1..])
  }

  /** How many `**x**` replacements the second pass makes. */
  function BoldMatches(s: string): nat
    decreases |s|
  {
    if |s| < 2 then 0
    else if s[0] == '*' && s[1] == '*' then
      match BoldClose(s, 2)
      case Some(k) => 1 + BoldMatches(s[k + 2..])
      case None => BoldMatches(s[1..])
    else BoldMatches(s[1..])
  }

  // ---------------------------------------------------------------------------
  // process_text_for_whatsapp
  // ---------------------------------------------------------------------------

  function ProcessTextForWhatsApp(text: string): (r: string)
    ensures |r| <= |text|
    ensures r == [] || (!IsSpace(r[0]) && !IsSpace(r[|r| - 1]))
  {
    Bold(Strip(StripCitations(text)))
  }

  // ---------------------------------------------------------------------------
  // Properties of the citation pass
  // ---------------------------------------------------------------------------

  /** No `】` occurs in `s` before its first newline. */
  predicate Unclosed(s: string) {
    forall k :: 0 <= k < |s| && s[k] == CloseCite ==> '\n' in s[..k]
  }

  /** `s` holds no citation segment: no `【` is followed by a `】` on its line. */
  predicate CitationFree(s: string) {
    forall i :: 0 <= i < |s| && s[i] == OpenCite ==> Unclosed(s[i + 1..])
  }

  /** When every `】` from `from` on lies past a newline, the citation match fails. */
  lemma {:induction false} CloseNeedsSameLine(s: string, from: nat)
    requires from <= |s|
    requires forall k :: from <= k < |s| && s[k] == CloseCite ==> '\n' in s[from..k]
    ensures CiteClose(s, from) == None
    decreases |s| - from
  {
    if from < |s| && s[from] != '\n' {
      assert s[from] != CloseCite by {
        assert s[from..from] == [];
      }
      forall k | from + 1 <= k < |s| && s[k] == CloseCite ensures '\n' in s[from + 1..k] {
        assert s[from..k] == [s[from]] + s[from + 1..k];
      }
      CloseNeedsSameLine(s, from + 1);
    }
  }

  /** A segment `【x】` with `x` on one line and free of `】` is deleted, delimiters included. */
  lemma CitationDeleted(x: string, rest: string)
    requires CloseCite !in x && NoNewline(x)
    ensures StripCitations([OpenCite] + x + [CloseCite] + rest) == StripCitations(rest)
  {
    var s := [OpenCite] + x + [CloseCite] + rest;
    assert s[|x| + 1] == CloseCite;
    assert forall k :: 1 <= k < |x| + 1 ==> s[k] == x[k - 1];
    assert CiteClose(s, 1) == Some(|x| + 1);
    assert s[|x| + 2..] == rest;
  }

  /** Text before the first `【` is copied unchanged. */
  lemma {:induction false} PlainPrefixKept(p: string, rest: string)
    requires OpenCite !in p
    ensures StripCitations(p + rest) == p + StripCitations(rest)
    decreases |p|
  {
    if p != [] {
      var s := p + rest;
      assert s[0] == p[0] != OpenCite && s[1..] == p[1..] + rest;
      assert StripCitations(s) == [p[0]] + StripCitations(p[1..] + rest);
      PlainPrefixKept(p[1..], rest);
      assert p == [p[0]] + p[1..];
    } else {
      assert p + rest == rest;
    }
  }

  /** Text with no `【` passes the first pass unchanged. */
  lemma WithoutCitationsUnchanged(s: string)
    requires OpenCite !in s
    ensures StripCitations(s) == s
  {
    PlainPrefixKept(s, []);
    assert s + [] == s;
  }

  /** The first pass never brings a `】` up onto the first line. */
  lemma {:induction false} UnclosedKept(s: string)
    requires Unclosed(s)
    ensures Unclosed(StripCitations(s))
    decreases |s|
  {
    if s != [] {
      if s[0] == OpenCite {
        forall k | 1 <= k < |s| && s[k] == CloseCite ensures '\n' in s[1..k] {
          assert s[..k] == [s[0]] + s[1..k];
        }
        CloseNeedsSameLine(s, 1);
      }
      var r := StripCitations(s);
      assert r == [s[0]] + StripCitations(s[1..]);
      if s[0] == '\n' {
        forall k | 0 < k < |r| ensures '\n' in r[..k] {
          assert r[..k][0] == '\n';
        }
      } else {
        assert s[0] != CloseCite;
        forall k | 0 <= k < |s| - 1 && s[1..][k] == CloseCite ensures '\n' in s[1..][..k] {
          assert '\n' in s[..k + 1];
          assert s[..k + 1] == [s[0]] + s[1..][..k];
        }
        UnclosedKept(s[1..]);
        var r' := StripCitations(s[1..]);
        forall k | 0 < k < |r| && r[k] == CloseCite ensures '\n' in r[..k] {
          assert r'[k - 1] == CloseCite;
          assert r[..k] == [s[0]] + r'[..k - 1];
        }
      }
    }
  }

  /** After the first pass no citation segment is left. */
  lemma {:induction false} NoCitationLeft(s: string)
    ensures CitationFree(StripCitations(s))
    decreases |s|
  {
    if s != [] {
      if s[0] == OpenCite && CiteClose(s, 1).Some? {
        NoCitationLeft(s[CiteClose(s, 1).value + 1..]);
      } else {
        var r' := StripCitations(s[1..]);
        var r := [s[0]] + r';
        NoCitationLeft(s[1..]);
        if s[0] == OpenCite {
          forall k | 0 <= k < |s| - 1 && s[1..][k] == CloseCite ensures '\n' in s[1..][..k] {
            assert '\n' in s[1..k + 1];
          }
          UnclosedKept(s[1..]);
          assert r[1..] == r';
        }
        forall i | 0 < i < |r| && r[i] == OpenCite ensures Unclosed(r[i + 1..]) {
          assert r[i + 1..] == r'[i..];
        }
      }
    }
  }

  /** Text with no citation segment passes the first pass unchanged. */
  lemma {:induction false} CitationFreeUnchanged(s: string)
    requires CitationFree(s)
    ensures StripCitations(s) == s
    decreases |s|
  {
    if s != [] {
      if s[0] == OpenCite {
        assert Unclosed(s[1..]);
        forall k | 1 <= k < |s| && s[k] == CloseCite ensures '\n' in s[1..k] {
          assert s[1..][k - 1] == CloseCite;
          assert s[1..][..k - 1] == s[1..k];
        }
        CloseNeedsSameLine(s, 1);
      }
      forall i | 0 <= i < |s| - 1 && s[1..][i] == OpenCite ensures Unclosed(s[1..][i + 1..]) {
        assert s[1..][i + 1..] == s[i + 2..];
      }
      CitationFreeUnchanged(s[1..]);
    }
  }

  /** Deleting citations twice is the same as once. */
  lemma StripCitationsIdempotent(s: string)
    ensures StripCitations(StripCitations(s)) == StripCitations(s)
  {
    NoCitationLeft(s);
    CitationFreeUnchanged(StripCitations(s));
  }

  // ---------------------------------------------------------------------------
  // Properties of the bold pass and of the whole rewrite
  // ---------------------------------------------------------------------------

  /**
   * `**x**` becomes `*x*` with `x` kept verbatim, when `x` is what the lazy
   * group takes: one line, no `**` inside, and no `*` at its end (that `*`
   * and the first closing one would close the match earlier).
   */
  lemma BoldPair(x: string, rest: string)
    requires NoNewline(x) && NoDoubleStar(x + ['*'])
    ensures Bold(['*', '*'] + x + ['*', '*'] + rest) == ['*'] + x + ['*'] + Bold(rest)
  {
    var s := ['*', '*'] + x + ['*', '*'] + rest;
    var e := |x| + 2;
    var xs := x + ['*'];
    forall k | 2 <= k < e ensures s[k] != '\n' && !(s[k] == '*' && s[k + 1] == '*') {
      assert s[k] == x[k - 2] == xs[k - 2];
      assert s[k + 1] == xs[k - 1];
    }
    BoldCloseAt(s, 2, e);
    assert s[2..e] == x;
    assert s[e + 2..] == rest;
  }

  /** The lazy group ends at the first `**` on the line. */
  lemma {:induction false} BoldCloseAt(s: string, from: nat, e: nat)
    requires from <= e && e + 1 < |s| && s[e] == '*' && s[e + 1] == '*'
    requires forall k :: from <= k < e ==> s[k] != '\n' && !(s[k] == '*' && s[k + 1] == '*')
    ensures BoldClose(s, from) == Some(e)
    decreases e - from
  {
    if from < e {
      BoldCloseAt(s, from + 1, e);
    }
  }

  /** Text without `*` before the rest is copied unchanged. */
  lemma {:induction false} BoldPlainPrefix(p: string, rest: string)
    requires '*' !in p
    ensures Bold(p + rest) == p + Bold(rest)
    decreases |p|
  {
    if p == [] {
      assert p + rest == rest;
    } else {
      var s := p + rest;
      if |s| < 2 {
        assert rest == [] && s == p;
      } else {
        var p' := p[1..];
        assert s[0] == p[0] != '*' && s[1..] == p' + rest;
        assert '*' !in p' by {
          assert forall c :: c in p' ==> c in p;
        }
        assert Bold(s) == [s[0]] + Bold(p' + rest);
        BoldPlainPrefix(p', rest);
        assert p == [p[0]] + p';
      }
    }
  }

  /** Text with no `**` passes the second pass unchanged. */
  lemma {:induction false} NoBoldUnchanged(s: string)
    requires NoDoubleStar(s)
    ensures Bold(s) == s
    decreases |s|
  {
    if |s| >= 2 {
      assert !(s[0] == '*' && s[1] == '*');
      assert NoDoubleStar(s[1..]) by {
        forall k | 0 <= k < |s[1..]| - 1 ensures !(s[1..][k] == '*' && s[1..][k + 1] == '*') {
          assert s[1..][k] == s[k + 1] && s[1..][k + 1] == s[k + 2];
        }
      }
      NoBoldUnchanged(s[1..]);
    }
  }

  /** Each replacement removes exactly two characters, and nothing else is removed. */
  lemma {:induction false} TwoRemovedPerMatch(s: string)
    ensures |Bold(s)| + 2 * BoldMatches(s) == |s|
    decreases |s|
  {
    if |s| >= 2 {
      if s[0] == '*' && s[1] == '*' && BoldClose(s, 2).Some? {
        TwoRemovedPerMatch(s[BoldClose(s, 2).value + 2..]);
      } else {
        TwoRemovedPerMatch(s[1..]);
      }
    }
  }

  /** Text with no `【` and no `**` comes back only stripped. */
  lemma PassThrough(text: string)
    requires OpenCite !in text && NoDoubleStar(text)
    ensures ProcessTextForWhatsApp(text) == Strip(text)
  {
    WithoutCitationsUnchanged(text);
    var t := TrimStart(text);
    var r := TrimEnd(t);
    var a := |text| - |t|;
    assert forall k :: 0 <= k < |r| ==> r[k] == text[a + k];
    NoBoldUnchanged(r);
  }
}
