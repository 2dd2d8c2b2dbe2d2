/** The question template of the "AI" query box, the regular expression
      What was the population of\s*([A-Z]{2})\s*in\s*(\d{4})\?
    searched for anywhere in the input (Python's `re.search`). It is stated twice: as a
    specification (InstanceAt: the input holds a concatenation of the template's pieces
    at a position) and as a scanner (ScanAt, Search) that reads the pieces left to right;
    the lemmas show that the scanner finds exactly the leftmost instance.
    Characters are taken to be ASCII: `\s` is Python's whitespace below 128 and `\d`
    the ten ASCII digits. */
module Template {
  import opened Wrappers
  import opened Digits

  const Phrase := "What was the population of"

  /** Python's `\s` on ASCII: tab, line feed, vertical tab, form feed, carriage return,
      the four separators 0x1C-0x1F, and space. */
  predicate IsSpace(c: char) {
    9 <= c as int <= 13 || 28 <= c as int <= 32
  }

  predicate AllSpace(s: string) {
    forall k :: 0 <= k < |s| ==> IsSpace(s[k])
  }

  /** `[A-Z]` */
  predicate IsUpper(c: char) {
    'A' <= c <= 'Z'
  }

  predicate AllUpper(s: string) {
    forall k :: 0 <= k < |s| ==> IsUpper(s[k])
  }

  /** The two capture groups of a match: `([A-Z]{2})` and `(\d{4})`. */
  datatype Captures = Captures(state: string, year: string)

  /** A match found by the search: where it starts and what it captured. */
  datatype Match = Match(start: nat, captures: Captures)

  /** One concrete string the template denotes, given its three runs of whitespace and
      its two captures. */
  function Instance(w1: string, st: string, w2: string, w3: string, yr: string): string {
    Phrase + (w1 + (st + (w2 + ("in" + (w3 + (yr + "?"))))))
  }

  ghost predicate Pieces(w1: string, st: string, w2: string, w3: string, yr: string) {
    && AllSpace(w1) && AllSpace(w2) && AllSpace(w3)
    && |st| == 2 && AllUpper(st)
    && |yr| == 4 && AllDigits(yr)
  }

  /** `u` occurs in `s` starting at position `i`. */
  predicate OccursAt(u: string, s: string, i: nat) {
    i + |u| <= |s| && s[i..i + |u|] == u
  }

  /** The input `s` holds, starting at position `i`, an instance of the template that
      captures `st` and `yr`. */
  ghost predicate InstanceAt(s: string, i: nat, st: string, yr: string) {
    i <= |s| &&
    exists w1, w2, w3 :: Pieces(w1, st, w2, w3, yr) && OccursAt(Instance(w1, st, w2, w3, yr), s, i)
  }

  ghost predicate MatchesAt(s: string, i: nat) {
    exists st, yr :: InstanceAt(s, i, st, yr)
  }

  /** The instance that `re.search` reports: the one at the smallest start position. */
  ghost predicate Leftmost(s: string, i: nat, st: string, yr: string) {
    InstanceAt(s, i, st, yr) && forall j: nat :: j < i ==> !MatchesAt(s, j)
  }

  /** The end of the run of whitespace that starts at `k` (greedy `\s*`). */
  function SkipSpace(s: string, k: nat): (r: nat)
    requires k <= |s|
    ensures k <= r <= |s|
    ensures forall m :: k <= m < r ==> IsSpace(s[m])
    ensures r < |s| ==> !IsSpace(s[r])
    decreases |s| - k
  {
    if k < |s| && IsSpace(s[k]) then SkipSpace(s, k + 1) else k
  }

  /** Tries the template at position `i` only, reading its pieces left to right. */
  function ScanAt(s: string, i: nat): (r: Option<Captures>)
    ensures r.Some? ==> |r.value.state| == 2 && AllUpper(r.value.state)
    ensures r.Some? ==> |r.value.year| == 4 && AllDigits(r.value.year)
  {
    if OccursAt(Phrase, s, i) then ScanState(s, SkipSpace(s, i + |Phrase|)) else None
  }

  /** The pattern after its opening phrase and first `\s*`: `([A-Z]{2})\s*in`. */
  function ScanState(s: string, a: nat): (r: Option<Captures>)
    requires a <= |s|
    ensures r.Some? ==> |r.value.state| == 2 && AllUpper(r.value.state)
    ensures r.Some? ==> |r.value.year| == 4 && AllDigits(r.value.year)
  {
    if a + 2 <= |s| && IsUpper(s[a]) && IsUpper(s[a + 1]) then
      var b := SkipSpace(s, a + 2);
      assert AllUpper(s[a..a + 2]) by {
        assert s[a..a + 2][0] == s[a] && s[a..a + 2][1] == s[a + 1];
      }
      if OccursAt("in", s, b) then ScanYear(s, s[a..a + 2], SkipSpace(s, b + 2)) else None
    else None
  }

  /** The pattern after `in\s*`: `(\d{4})\?`. */
  function ScanYear(s: string, st: string, c: nat): (r: Option<Captures>)
    requires c <= |s| && |st| == 2
    ensures r.Some? ==> r.value.state == st && |r.value.year| == 4 && AllDigits(r.value.year)
  {
    if c + 5 <= |s| && AllDigits(s[c..c + 4]) && s[c + 4] == '?' then Some(Captures(st, s[c..c + 4]))
    else None
  }

  /** The first position from `i` up to `n` at which `scan` succeeds, with what it read
      there: the loop of `re.search` over start positions, for any matcher `scan`. */
  function FirstHit(scan: nat -> Option<Captures>, n: nat, i: nat): (r: Option<Match>)
    requires i <= n
    ensures r.Some? ==> i <= r.value.start <= n && scan(r.value.start) == Some(r.value.captures)
    decreases n - i
  {
    match scan(i)
    case Some(c) => Some(Match(i, c))
    case None => if i == n then None else FirstHit(scan, n, i + 1)
  }

  /** The position reported is the first one where `scan` succeeds; nothing is reported
      only if `scan` fails at every position from `i` to `n`. */
  lemma {:induction false} FirstHitFirst(scan: nat -> Option<Captures>, n: nat, i: nat)
    requires i <= n
    ensures FirstHit(scan, n, i).Some? ==>
      forall j :: i <= j < FirstHit(scan, n, i).value.start ==> scan(j).None?
    ensures FirstHit(scan, n, i).None? ==> forall j :: i <= j <= n ==> scan(j).None?
    decreases n - i
  {
    if scan(i).None? && i < n {
      FirstHitFirst(scan, n, i + 1);
    }
  }

  /** `re.search`: tries every start position of the input in turn, from the first, and
      reports the first where the template matches. */
  function Search(s: string): (r: Option<Match>)
    ensures r.Some? ==> r.value.start <= |s| && ScanAt(s, r.value.start) == Some(r.value.captures)
  {
    FirstHit((j: nat) => ScanAt(s, j), |s|, 0)
  }

  /** The search reports the first position where the scanner succeeds, and nothing only
      if the scanner fails at every position of the input. */
  lemma SearchFirst(s: string)
    ensures Search(s).Some? ==> forall j :: 0 <= j < Search(s).value.start ==> ScanAt(s, j).None?
    ensures Search(s).None? ==> forall j :: 0 <= j <= |s| ==> ScanAt(s, j).None?
  {
    var scan := (j: nat) => ScanAt(s, j);
    FirstHitFirst(scan, |s|, 0);
    assert forall j: nat :: scan(j) == ScanAt(s, j);
  }

  /** An occurrence of a concatenation is an occurrence of its first part followed by one
      of its second part. */
  lemma OccursAppend(x: string, y: string, s: string, i: nat)
    ensures OccursAt(x + y, s, i) <==> OccursAt(x, s, i) && OccursAt(y, s, i + |x|)
  {
    if i + |x| + |y| <= |s| {
      assert s[i..i + |x| + |y|] == s[i..i + |x|] + s[i + |x|..i + |x| + |y|];
      if OccursAt(x + y, s, i) {
        assert x == (x + y)[..|x|] && y == (x + y)[|x|..];
      }
    }
  }

  /** A whitespace run followed by a character that is not whitespace ends where SkipSpace stops. */
  lemma SkipSpaceStops(s: string, k: nat, w: string)
    requires AllSpace(w) && OccursAt(w, s, k)
    requires k + |w| < |s| && !IsSpace(s[k + |w|])
    ensures SkipSpace(s, k) == k + |w|
  {
  }

  lemma ScanYearSound(s: string, st: string, c: nat)
    requires c <= |s| && |st| == 2 && ScanYear(s, st, c).Some?
    ensures OccursAt(ScanYear(s, st, c).value.year + "?", s, c)
  {
    OccursAppend(s[c..c + 4], "?", s, c);
  }

  lemma ScanYearComplete(s: string, st: string, c: nat, yr: string)
    requires c <= |s| && |st| == 2 && |yr| == 4 && AllDigits(yr) && OccursAt(yr + "?", s, c)
    ensures ScanYear(s, st, c) == Some(Captures(st, yr))
  {
    OccursAppend(yr, "?", s, c);
  }

  /** What the scanner reads from the word "in" on, with the whitespace run it skipped. */
  lemma ScanInSound(s: string, st: string, b: nat) returns (w3: string)
    requires |st| == 2 && OccursAt("in", s, b)
    requires ScanYear(s, st, SkipSpace(s, b + 2)).Some?
    ensures AllSpace(w3)
    ensures OccursAt("in" + (w3 + (ScanYear(s, st, SkipSpace(s, b + 2)).value.year + "?")), s, b)
  {
    var c := SkipSpace(s, b + 2);
    var yr := ScanYear(s, st, c).value.year;
    w3 := s[b + 2..c];
    ScanYearSound(s, st, c);
    OccursAppend(w3, yr + "?", s, b + 2);
    OccursAppend("in", w3 + (yr + "?"), s, b);
  }

  /** A successful ScanState found two capital letters and the word "in". */
  lemma ScanStateFound(s: string, a: nat)
    requires a <= |s| && ScanState(s, a).Some?
    ensures a + 2 <= |s| && IsUpper(s[a]) && IsUpper(s[a + 1])
    ensures OccursAt("in", s, SkipSpace(s, a + 2))
    ensures ScanState(s, a) == ScanYear(s, s[a..a + 2], SkipSpace(s, SkipSpace(s, a + 2) + 2))
  {
  }

  /** What the scanner reads after the opening phrase and its whitespace, with the two
      whitespace runs it skipped. */
  lemma ScanStateSound(s: string, a: nat) returns (w2: string, w3: string)
    requires a <= |s| && ScanState(s, a).Some?
    ensures var cap := ScanState(s, a).value;
      && AllUpper(cap.state) && AllSpace(w2) && AllSpace(w3)
      && OccursAt(cap.state + (w2 + ("in" + (w3 + (cap.year + "?")))), s, a)
  {
    ScanStateFound(s, a);
    var b := SkipSpace(s, a + 2);
    var st := s[a..a + 2];
    assert AllUpper(st) by {
      assert st[0] == s[a] && st[1] == s[a + 1];
    }
    w2 := s[a + 2..b];
    w3 := ScanInSound(s, st, b);
    var yr := ScanState(s, a).value.year;
    OccursAppend(w2, "in" + (w3 + (yr + "?")), s, a + 2);
    OccursAppend(st, w2 + ("in" + (w3 + (yr + "?"))), s, a);
  }

  lemma ScanInComplete(s: string, st: string, b: nat, w3: string, yr: string)
    requires |st| == 2 && AllSpace(w3) && |yr| == 4 && AllDigits(yr)
    requires OccursAt("in" + (w3 + (yr + "?")), s, b)
    ensures OccursAt("in", s, b)
    ensures ScanYear(s, st, SkipSpace(s, b + 2)) == Some(Captures(st, yr))
  {
    OccursAppend("in", w3 + (yr + "?"), s, b);
    var c := b + 2 + |w3|;
    OccursAppend(w3, yr + "?", s, b + 2);
    OccursAppend(yr, "?", s, c);
    assert s[c] == yr[0];
    SkipSpaceStops(s, b + 2, w3);
    ScanYearComplete(s, st, c, yr);
  }

  /** ScanState once the two letters and the word "in" are found. */
  lemma ScanStateSteps(s: string, a: nat, b: nat)
    requires a + 2 <= |s| && IsUpper(s[a]) && IsUpper(s[a + 1])
    requires SkipSpace(s, a + 2) == b && OccursAt("in", s, b)
    ensures ScanState(s, a) == ScanYear(s, s[a..a + 2], SkipSpace(s, b + 2))
  {
  }

  lemma ScanStateComplete(s: string, a: nat, st: string, w2: string, w3: string, yr: string)
    requires Pieces([], st, w2, w3, yr)
    requires OccursAt(st + (w2 + ("in" + (w3 + (yr + "?")))), s, a)
    ensures ScanState(s, a) == Some(Captures(st, yr))
  {
    var rest := w2 + ("in" + (w3 + (yr + "?")));
    OccursAppend(st, rest, s, a);
    assert s[a..a + 2] == st;
    assert IsUpper(s[a]) && IsUpper(s[a + 1]) by {
      assert s[a] == st[0] && s[a + 1] == st[1];
    }
    var b := a + 2 + |w2|;
    OccursAppend(w2, "in" + (w3 + (yr + "?")), s, a + 2);
    ScanInComplete(s, st, b, w3, yr);
    assert s[b] == 'i';
    SkipSpaceStops(s, a + 2, w2);
    ScanStateSteps(s, a, b);
  }

  /** What the scanner reads is an instance of the template. */
  lemma ScanAtSound(s: string, i: nat)
    requires i <= |s| && ScanAt(s, i).Some?
    ensures InstanceAt(s, i, ScanAt(s, i).value.state, ScanAt(s, i).value.year)
  {
    var p1 := i + |Phrase|;
    var a := SkipSpace(s, p1);
    var w1 := s[p1..a];
    var cap := ScanState(s, a).value;
    var w2, w3 := ScanStateSound(s, a);
    var tail := cap.state + (w2 + ("in" + (w3 + (cap.year + "?"))));
    OccursAppend(w1, tail, s, p1);
    OccursAppend(Phrase, w1 + tail, s, i);
    assert Pieces(w1, cap.state, w2, w3, cap.year);
  }

  /** Every instance of the template is what the scanner reads at its position. */
  lemma ScanAtComplete(s: string, i: nat, st: string, yr: string)
    requires InstanceAt(s, i, st, yr)
    ensures ScanAt(s, i) == Some(Captures(st, yr))
  {
    var w1, w2, w3 :| Pieces(w1, st, w2, w3, yr) && OccursAt(Instance(w1, st, w2, w3, yr), s, i);
    var p1 := i + |Phrase|;
    var tail := st + (w2 + ("in" + (w3 + (yr + "?"))));
    OccursAppend(Phrase, w1 + tail, s, i);
    OccursAppend(w1, tail, s, p1);
    OccursAppend(st, w2 + ("in" + (w3 + (yr + "?"))), s, p1 + |w1|);
    assert s[p1 + |w1|] == st[0];
    SkipSpaceStops(s, p1, w1);
    assert Pieces([], st, w2, w3, yr);
    ScanStateComplete(s, p1 + |w1|, st, w2, w3, yr);
  }

  /** The scanner at one position decides the template exactly. */
  lemma ScanAtExact(s: string, i: nat, st: string, yr: string)
    requires i <= |s|
    ensures ScanAt(s, i) == Some(Captures(st, yr)) <==> InstanceAt(s, i, st, yr)
  {
    if ScanAt(s, i) == Some(Captures(st, yr)) {
      ScanAtSound(s, i);
    }
    if InstanceAt(s, i, st, yr) {
      ScanAtComplete(s, i, st, yr);
    }
  }

  lemma MatchesAtExact(s: string, i: nat)
    ensures MatchesAt(s, i) <==> i <= |s| && ScanAt(s, i).Some?
  {
    if i <= |s| && ScanAt(s, i).Some? {
      ScanAtSound(s, i);
    }
    if MatchesAt(s, i) {
      var st, yr :| InstanceAt(s, i, st, yr);
      ScanAtComplete(s, i, st, yr);
    }
  }

  /** A position holds at most one instance: its captures are determined by where it starts. */
  lemma InstanceUnique(s: string, i: nat, st: string, yr: string, st': string, yr': string)
    requires InstanceAt(s, i, st, yr) && InstanceAt(s, i, st', yr')
    ensures st == st' && yr == yr'
  {
    ScanAtComplete(s, i, st, yr);
    ScanAtComplete(s, i, st', yr');
  }

  /** The search over the whole input reports exactly the leftmost instance of the template. */
  lemma SearchFindsLeftmost(s: string, i: nat, st: string, yr: string)
    ensures Search(s) == Some(Match(i, Captures(st, yr))) <==> Leftmost(s, i, st, yr)
  {
    SearchFirst(s);
    if Search(s) == Some(Match(i, Captures(st, yr))) {
      ScanAtSound(s, i);
      forall j: nat | j < i ensures !MatchesAt(s, j) {
        MatchesAtExact(s, j);
      }
    }
    if Leftmost(s, i, st, yr) {
      ScanAtComplete(s, i, st, yr);
      match Search(s)
      case None =>
      case Some(m) =>
        MatchesAtExact(s, m.start);
        if m.start > i {
        } else if m.start < i {
          assert false;
        }
    }
  }

  /** The search fails exactly when the input holds no instance of the template anywhere. */
  lemma SearchFailsIffNoInstance(s: string)
    ensures Search(s).None? <==> forall j: nat :: !MatchesAt(s, j)
  {
    SearchFirst(s);
    if Search(s).None? {
      forall j: nat ensures !MatchesAt(s, j) {
        MatchesAtExact(s, j);
      }
    } else {
      MatchesAtExact(s, Search(s).value.start);
    }
  }
}
