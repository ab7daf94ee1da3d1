/** Cleaning of one input line: every mis-decoded apostrophe is replaced by a
    plain one (`str.replace`), then surrounding whitespace is removed
    (`str.strip` with no argument). */
module Cleaning {

  /** Python's `str.isspace`: general category Zs, or bidirectional class
      WS, B or S. This is the set `str.strip()` removes. */
  predicate IsSpace(c: char)
    ensures IsSpace(c) ==> c != '\'' && c !in Mojibake
  {
    ('\t' <= c <= '\r') || ('\U{1C}' <= c <= ' ') || c == '\U{85}' || c == '\U{A0}' ||
    c == '\U{1680}' || ('\U{2000}' <= c <= '\U{200A}') || c == '\U{2028}' || c == '\U{2029}' ||
    c == '\U{202F}' || c == '\U{205F}' || c == '\U{3000}'
  }

  ghost predicate AllSpace(s: string)
  {
    forall i :: 0 <= i < |s| ==> IsSpace(s[i])
  }

  /** No whitespace at either end. */
  predicate IsStripped(s: string)
  {
    s == [] || (!IsSpace(s[0]) && !IsSpace(s[|s| - 1]))
  }

  /** Length of the whitespace run that starts `s`. */
  function LeadingSpace(s: string): (n: nat)
    ensures n <= |s|
    ensures forall i :: 0 <= i < n ==> IsSpace(s[i])
    ensures n < |s| ==> !IsSpace(s[n])
  {
    if s != [] && IsSpace(s[0]) then 1 + LeadingSpace(s[1..]) else 0
  }

  /** Length of the whitespace run that ends `s`. */
  function TrailingSpace(s: string): (n: nat)
    ensures n <= |s|
    ensures forall i :: |s| - n <= i < |s| ==> IsSpace(s[i])
    ensures n < |s| ==> !IsSpace(s[|s| - 1 - n])
  {
    if s != [] && IsSpace(s[|s| - 1]) then 1 + TrailingSpace(s[..|s| - 1]) else 0
  }

  /** `str.strip()`: the result is a piece of `s` that keeps everything but the
      whitespace at both ends, and has none left at either end. */
  function Strip(s: string): (r: string)
    ensures IsStripped(r)
    ensures var a := LeadingSpace(s);
      a + |r| <= |s| && s[a..a + |r|] == r && AllSpace(s[..a]) && AllSpace(s[a + |r|..])
  {
    var t := s[LeadingSpace(s)..];
    t[..|t| - TrailingSpace(t)]
  }

  /** Strip is determined by its contract: whatever way `s` is cut into
      whitespace, a stripped middle and whitespace, the middle is Strip(s). */
  lemma StripUnique(s: string, pre: string, mid: string, post: string)
    requires s == pre + mid + post
    requires AllSpace(pre) && AllSpace(post) && IsStripped(mid)
    ensures Strip(s) == mid
  {
    var r := Strip(s);
    var a := LeadingSpace(s);
    if mid == [] {
      assert AllSpace(s) by {
        forall i | 0 <= i < |s| ensures IsSpace(s[i]) {
          if i < |pre| {
            assert s[i] == pre[i];
          } else {
            assert s[i] == post[i - |pre|];
          }
        }
      }
      assert a == |s|;
    } else {
      assert s[|pre|] == mid[0];
      assert a == |pre|;
      var e := |pre| + |mid|;
      assert s[e - 1] == mid[|mid| - 1];
      assert a + |r| == e;
      assert s[a..e] == mid;
    }
  }

  /** Stripping twice is stripping once. */
  lemma StripIdempotent(s: string)
    ensures Strip(Strip(s)) == Strip(s)
  {
    var r := Strip(s);
    assert r == [] + r + [];
    StripUnique(r, [], r, []);
  }

  /** `pat` occurs in `s` starting at index `i`. */
  ghost predicate OccursAt(s: string, pat: string, i: int)
  {
    0 <= i && i + |pat| <= |s| && s[i..i + |pat|] == pat
  }

  ghost predicate Contains(s: string, pat: string)
  {
    exists i :: OccursAt(s, pat, i)
  }

  /** `str.replace(pat, rep)`: scans left to right and replaces each
      non-overlapping occurrence of `pat`. */
  function ReplaceAll(s: string, pat: string, rep: string): (r: string)
    requires pat != []
    ensures |rep| <= |pat| ==> |r| <= |s|
    decreases |s|
  {
    if s == [] then []
    else if pat <= s then rep + ReplaceAll(s[|pat|..], pat, rep)
    else [s[0]] + ReplaceAll(s[1..], pat, rep)
  }

  /** A text without the pattern is left unchanged. */
  lemma {:induction false} ReplaceAllAbsent(s: string, pat: string, rep: string)
    requires pat != [] && !Contains(s, pat)
    ensures ReplaceAll(s, pat, rep) == s
    decreases |s|
  {
    if s != [] {
      assert !OccursAt(s, pat, 0);
      forall i ensures !OccursAt(s[1..], pat, i) {
        assert !OccursAt(s, pat, 1 + i);
        OccursInSlice(s, 1, |s|, pat, i);
      }
      ReplaceAllAbsent(s[1..], pat, rep);
    }
  }

  /** A replacement-free prefix of the output is a prefix of the input: the
      only characters a one-character replacement introduces are copies of
      that character. */
  lemma {:induction false} ReplacedPrefix(t: string, pat: string, c: char, q: string)
    requires pat != []
    requires forall i :: 0 <= i < |q| ==> q[i] != c
    requires q <= ReplaceAll(t, pat, [c])
    ensures q <= t
    decreases |t|
  {
    if t != [] && q != [] {
      assert q[0] == ReplaceAll(t, pat, [c])[0];
      if !(pat <= t) {
        var r := ReplaceAll(t[1..], pat, [c]);
        assert q[1..] <= r;
        ReplacedPrefix(t[1..], pat, c, q[1..]);
      }
    }
  }

  /** An occurrence after the first character is an occurrence in the tail. */
  lemma OccursAtTail(x: string, r: string, pat: string, i: int)
    requires |x| == 1 && i > 0
    ensures OccursAt(x + r, pat, i) ==> OccursAt(r, pat, i - 1)
  {
    if OccursAt(x + r, pat, i) {
      assert (x + r)[i..i + |pat|] == r[i - 1..i - 1 + |pat|];
    }
  }

  /** The output of a one-character replacement never starts with the
      pattern. */
  lemma ReplacedStart(s: string, pat: string, c: char)
    requires pat != [] && c !in pat
    ensures !OccursAt(ReplaceAll(s, pat, [c]), pat, 0)
  {
    var r := ReplaceAll(s, pat, [c]);
    if s != [] {
      assert r[0] == if pat <= s then c else s[0];
      if !(pat <= s) && OccursAt(r, pat, 0) {
        assert pat[1..] <= ReplaceAll(s[1..], pat, [c]);
        ReplacedPrefix(s[1..], pat, c, pat[1..]);
      }
    }
  }

  /** Replacing with one character that is not part of the pattern leaves no
      occurrence of the pattern behind. */
  lemma {:induction false} ReplacedHasNoPattern(s: string, pat: string, c: char)
    requires pat != [] && c !in pat
    ensures !Contains(ReplaceAll(s, pat, [c]), pat)
    decreases |s|
  {
    if s != [] {
      var r := ReplaceAll(s, pat, [c]);
      var tail := if pat <= s then s[|pat|..] else s[1..];
      var head := if pat <= s then [c] else [s[0]];
      ReplacedHasNoPattern(tail, pat, c);
      assert r == head + ReplaceAll(tail, pat, [c]);
      ReplacedStart(s, pat, c);
      forall i | i > 0 ensures !OccursAt(r, pat, i) {
        OccursAtTail(head, ReplaceAll(tail, pat, [c]), pat, i);
      }
    }
  }

  lemma OccursInSlice(s: string, a: nat, b: nat, pat: string, i: int)
    requires a <= b <= |s|
    ensures OccursAt(s[a..b], pat, i) ==> OccursAt(s, pat, a + i)
  {
    if OccursAt(s[a..b], pat, i) {
      forall k | 0 <= k < |pat| ensures s[a + i..a + i + |pat|][k] == pat[k] {
        assert s[a..b][i..i + |pat|][k] == pat[k];
      }
    }
  }

  /** A piece of a text free of the pattern is free of it too. */
  lemma AbsentFromSlice(s: string, a: nat, b: nat, pat: string)
    requires a <= b <= |s| && !Contains(s, pat)
    ensures !Contains(s[a..b], pat)
  {
    forall i ensures !OccursAt(s[a..b], pat, i) {
      OccursInSlice(s, a, b, pat, i);
    }
  }

  /** The three characters a right single quotation mark (U+2019) turns into
      when its UTF-8 encoding is read as Windows-1252. */
  const Mojibake: string := "\U{E2}\U{20AC}\U{2122}"

  /** The name recorded for one input line: apostrophes repaired, then
      stripped. It has no whitespace at either end and no mis-decoded
      apostrophe left. */
  function Clean(line: string): (r: string)
    ensures IsStripped(r) && !Contains(r, Mojibake)
  {
    var replaced := ReplaceAll(line, Mojibake, "'");
    ReplacedHasNoPattern(line, Mojibake, '\'');
    AbsentFromSlice(replaced, LeadingSpace(replaced), LeadingSpace(replaced) + |Strip(replaced)|, Mojibake);
    Strip(replaced)
  }

  /** A name that is already stripped and free of mis-decoded apostrophes
      is its own cleaned form. */
  lemma CleanFixed(x: string)
    requires IsStripped(x) && !Contains(x, Mojibake)
    ensures Clean(x) == x
  {
    ReplaceAllAbsent(x, Mojibake, "'");
    assert x == [] + x + [];
    StripUnique(x, [], x, []);
  }

  /** Cleaning a cleaned line changes nothing. */
  lemma CleanIdempotent(s: string)
    ensures Clean(Clean(s)) == Clean(s)
  {
    CleanFixed(Clean(s));
  }

  /** A cleaned name written out as a line of its own reads back as itself. */
  lemma CleanTerminated(x: string)
    requires IsStripped(x) && !Contains(x, Mojibake)
    ensures Clean(x + "\n") == x
  {
    CleanIgnoresTerminator(x);
    CleanFixed(x);
  }

  /** Replacement adds no character that neither the text nor the
      replacement holds. */
  lemma {:induction false} ReplaceAllKeepsOut(s: string, pat: string, rep: string, d: char)
    requires pat != [] && d !in s && d !in rep
    ensures d !in ReplaceAll(s, pat, rep)
    decreases |s|
  {
    if s != [] {
      if pat <= s {
        ReplaceAllKeepsOut(s[|pat|..], pat, rep, d);
      } else {
        assert s[0] != d;
        ReplaceAllKeepsOut(s[1..], pat, rep, d);
      }
    }
  }

  /** A final character that is not part of the pattern passes through
      replacement unchanged. */
  lemma {:induction false} ReplaceAllAppend(x: string, pat: string, rep: string, d: char)
    requires pat != [] && d !in pat
    ensures ReplaceAll(x + [d], pat, rep) == ReplaceAll(x, pat, rep) + [d]
    decreases |x|
  {
    var s := x + [d];
    if x == [] {
      assert !(pat <= s) by {
        assert pat[0] != d;
      }
      assert s[1..] == [];
    } else if pat <= x {
      assert pat <= s;
      assert s[|pat|..] == x[|pat|..] + [d];
      ReplaceAllAppend(x[|pat|..], pat, rep, d);
    } else {
      assert !(pat <= s) by {
        if |pat| <= |x| {
          assert s[..|pat|] == x[..|pat|];
        } else {
          assert s[|x|] == d;
        }
      }
      assert s[1..] == x[1..] + [d];
      ReplaceAllAppend(x[1..], pat, rep, d);
    }
  }

  lemma SliceKeepsOut(s: string, a: nat, b: nat, d: char)
    requires a <= b <= |s| && d !in s
    ensures d !in s[a..b]
  {
    assert forall i :: 0 <= i < b - a ==> s[a..b][i] == s[a + i];
  }

  lemma AllSpaceAppend(u: string, w: string)
    requires AllSpace(u) && AllSpace(w)
    ensures AllSpace(u + w)
  {
    forall i | 0 <= i < |u + w| ensures IsSpace((u + w)[i]) {
      if i < |u| {
        assert (u + w)[i] == u[i];
      } else {
        assert (u + w)[i] == w[i - |u|];
      }
    }
  }

  /** Trailing whitespace does not change the stripped text. */
  lemma StripAppendSpace(r: string, w: string)
    requires AllSpace(w)
    ensures Strip(r + w) == Strip(r)
  {
    var mid := Strip(r);
    var a := LeadingSpace(r);
    var pre, post := r[..a], r[a + |mid|..];
    assert r == pre + mid + post;
    AllSpaceAppend(post, w);
    Associative(pre + mid, post, w);
    StripUnique(r + w, pre, mid, post + w);
  }

  lemma Associative(a: string, b: string, c: string)
    ensures a + b + c == a + (b + c)
  {
  }

  /** The line terminator does not change the cleaned name. */
  lemma CleanIgnoresTerminator(body: string)
    ensures Clean(body + "\n") == Clean(body)
  {
    ReplaceAllAppend(body, Mojibake, "'", '\n');
    StripAppendSpace(ReplaceAll(body, Mojibake, "'"), "\n");
  }

  /** Cleaning a text without line breaks leaves none. */
  lemma CleanKeepsOutLineBreak(body: string)
    requires '\n' !in body
    ensures '\n' !in Clean(body)
  {
    var r := ReplaceAll(body, Mojibake, "'");
    ReplaceAllKeepsOut(body, Mojibake, "'", '\n');
    var a := LeadingSpace(r);
    SliceKeepsOut(r, a, a + |Strip(r)|, '\n');
  }

  /** A line whose only line break is its terminator is cleaned to a name
      without a line break. */
  lemma CleanHasNoLineBreak(line: string)
    requires forall i :: 0 <= i < |line| - 1 ==> line[i] != '\n'
    ensures '\n' !in Clean(line)
  {
    if line != [] && line[|line| - 1] == '\n' {
      var body := line[..|line| - 1];
      assert line == body + "\n";
      CleanIgnoresTerminator(body);
      CleanKeepsOutLineBreak(body);
    } else {
      CleanKeepsOutLineBreak(line);
    }
  }
}
