/**
 * The temporal utilities: random past and future instants, the three text
 * distortions, and picking a random or the oldest entry.
 *
 * Every `Math.random()` draw is a parameter, so each function here is
 * deterministic: an hour offset in milliseconds, a pick index, and a
 * `TextDraws` record that holds the draws of a distortion (one per word,
 * as a function from the word's position, plus the phrase and ending picks).
 */
module Temporal {
  import opened Strings
  import opened JournalTypes

  // ---------------------------------------------------------------------------
  // Random instants
  // ---------------------------------------------------------------------------

  const HourMs: int := 60 * 60 * 1000

  /**
   * The whole-millisecond offsets the `Date` built from
   * `now + Math.random() * (maxHours - minHours) + minHours` hours can land
   * on, measured from `now`: anywhere between the two bounds, both included.
   * The top is included because the float sum can round up onto it, and
   * `Date` truncates to whole milliseconds, which never crosses a bound since
   * the bounds are whole milliseconds.
   */
  predicate OffsetInRange(minHours: int, maxHours: int, offset: int) {
    if minHours <= maxHours then minHours * HourMs <= offset <= maxHours * HourMs
    else maxHours * HourMs <= offset <= minHours * HourMs
  }

  /** `getRandomFutureISODate`: an instant `offset` after `now`. */
  function RandomFutureTime(now: int, minHours: int, maxHours: int, offset: int): (t: int)
    requires OffsetInRange(minHours, maxHours, offset)
    ensures minHours <= maxHours ==> now + minHours * HourMs <= t <= now + maxHours * HourMs
    ensures minHours > 0 && maxHours > 0 ==> t > now
  {
    now + offset
  }

  /** `getRandomPastISODate`: an instant `offset` before `now`. */
  function RandomPastTime(now: int, minHours: int, maxHours: int, offset: int): (t: int)
    requires OffsetInRange(minHours, maxHours, offset)
    ensures minHours <= maxHours ==> now - maxHours * HourMs <= t <= now - minHours * HourMs
    ensures minHours > 0 && maxHours > 0 ==> t < now
  {
    now - offset
  }

  // ---------------------------------------------------------------------------
  // Constants
  // ---------------------------------------------------------------------------

  const GlitchChars: seq<char> := ['▇', '█', '▓', '▒', '░', '▀', '▄', '▌', '▐', '■', '□', '▪', '▫']

  const CorruptionPhrases: seq<string> := [
    "...the void watches...",
    "...time fractures...",
    "...reality bends...",
    "...echoes from nowhere...",
    "...this never happened...",
    "...or did it?...",
    "...the timeline splits...",
    "...causality breaks..."
  ]

  const DivergentEndings: seq<string> := [
    " But that's not what really happened.",
    " Or was it? The memory shifts.",
    " In another timeline, everything was different.",
    " The truth fractures here.",
    " Reality splits at this moment.",
    " This is where it all went wrong."
  ]

  const BranchContinuation: string := " ...but in this branch, something changed."

  type GlyphIndex = i: nat | i < 13
  type PhraseIndex = i: nat | i < 8
  type EndingIndex = i: nat | i < 6

  // ---------------------------------------------------------------------------
  // Draws
  // ---------------------------------------------------------------------------

  /**
   * What the future echo's draws do to one word: nothing (the 80% case),
   * reverse it, replace it by one repeated glyph, or put a glyph at its middle.
   */
  datatype EchoDraw = KeepWord | ReverseWord | FillWord(glyph: GlyphIndex) | SpliceWord(glyph: GlyphIndex)

  /**
   * All draws one distortion may use: `echo(i)` for the i-th word of a future
   * echo; `corrupt(i)` is `Some(g)` when the 15% draw for the i-th word of an
   * altered past hit (with glyph `g`); the phrase and divergent-ending picks.
   */
  datatype TextDraws = TextDraws(
    echo: nat -> EchoDraw,
    corrupt: nat -> Option<GlyphIndex>,
    phrase: PhraseIndex,
    ending: EndingIndex)

  datatype AnomalyMode = FutureEcho | AlterPast | BranchTimeline

  // ---------------------------------------------------------------------------
  // Word edits
  // ---------------------------------------------------------------------------

  /**
   * `word.slice(0, mid) + g + word.slice(mid + 1)` with `mid = floor(|w| / 2)`:
   * the character at the middle is replaced by `g`, so the length is kept,
   * except that an empty word becomes the single glyph.
   */
  function SpliceMid(w: string, g: char): (r: string)
    ensures |r| == if |w| == 0 then 1 else |w|
    ensures r[|w| / 2] == g
    ensures forall i | 0 <= i < |r| && i != |w| / 2 :: r[i] == w[i]
  {
    var mid := |w| / 2;
    w[..mid] + [g] + (if mid + 1 <= |w| then w[mid + 1..] else [])
  }

  function EchoWord(w: string, d: EchoDraw): string {
    match d
    case KeepWord => w
    case ReverseWord => Reverse(w)
    case FillWord(g) => Repeat(GlitchChars[g], |w|)
    case SpliceWord(g) => SpliceMid(w, GlitchChars[g])
  }

  /** `t` is `w` made into a single repeated glyph of the same length. */
  predicate IsGlyphFill(w: string, t: string) {
    |t| == |w| && forall i | 0 <= i < |t| :: t[i] == t[0] && t[0] in GlitchChars
  }

  /** `t` is `w` with its middle character replaced by a glyph. */
  predicate IsMidSplice(w: string, t: string) {
    && |t| == (if |w| == 0 then 1 else |w|)
    && t[|w| / 2] in GlitchChars
    && forall i | 0 <= i < |t| && i != |w| / 2 :: t[i] == w[i]
  }

  /** The four forms a future-echo word can take. */
  predicate IsEchoVariant(w: string, t: string) {
    t == w || t == Reverse(w) || IsGlyphFill(w, t) || IsMidSplice(w, t)
  }

  /** A non-empty word keeps its length; an empty one becomes at most one glyph. */
  lemma EchoVariantLength(w: string, t: string)
    requires IsEchoVariant(w, t)
    ensures |w| > 0 ==> |t| == |w|
    ensures |w| == 0 ==> |t| <= 1
  {
  }

  lemma EchoWordIsVariant(w: string, d: EchoDraw)
    requires ' ' !in w
    ensures IsEchoVariant(w, EchoWord(w, d))
    ensures ' ' !in EchoWord(w, d)
  {
  }

  // ---------------------------------------------------------------------------
  // future_echo
  // ---------------------------------------------------------------------------

  function FutureEchoWords(words: seq<string>, echo: nat -> EchoDraw): (r: seq<string>)
    ensures |r| == |words|
  {
    seq(|words|, i requires 0 <= i < |words| => EchoWord(words[i], echo(i)))
  }

  /** The future echo: each word edited by its draw, rejoined, then a blank line and a phrase. */
  function FutureEchoText(content: string, d: TextDraws): string {
    Join(FutureEchoWords(SplitOn(content, ' '), d.echo), " ") + "\n\n" + CorruptionPhrases[d.phrase]
  }

  /**
   * What every future echo of `content` looks like, whatever was drawn: it ends
   * in "\n\n" and one corruption phrase, and what comes before splits on ' '
   * into exactly as many words as `content`, each a variant of its original.
   */
  ghost predicate FutureEchoShaped(content: string, r: string) {
    exists k | 0 <= k < |CorruptionPhrases| :: EchoShapedWith(content, r, k)
  }

  /** `r` has the echo's shape with corruption phrase `k`. */
  ghost predicate EchoShapedWith(content: string, r: string, k: nat)
    requires k < |CorruptionPhrases|
  {
    var words := SplitOn(content, ' ');
    var tail := "\n\n" + CorruptionPhrases[k];
    && |tail| <= |r|
    && r[|r| - |tail|..] == tail
    && var body := SplitOn(r[..|r| - |tail|], ' ');
    && |body| == |words|
    && forall i | 0 <= i < |words| :: IsEchoVariant(words[i], body[i])
  }

  lemma FutureEchoShape(content: string, d: TextDraws)
    ensures FutureEchoShaped(content, FutureEchoText(content, d))
  {
    var words := SplitOn(content, ' ');
    SplitHasNoSeparator(content, ' ');
    var edited := FutureEchoWords(words, d.echo);
    forall i | 0 <= i < |words|
      ensures IsEchoVariant(words[i], edited[i]) && ' ' !in edited[i]
    {
      EchoWordIsVariant(words[i], d.echo(i));
    }
    EchoShapedFrom(content, edited, d.phrase);
  }

  /** Variants of the words, rejoined and followed by a blank line and a phrase, have the echo's shape. */
  lemma EchoShapedFrom(content: string, edited: seq<string>, k: PhraseIndex)
    requires |edited| == |SplitOn(content, ' ')|
    requires forall i | 0 <= i < |edited| ::
      IsEchoVariant(SplitOn(content, ' ')[i], edited[i]) && ' ' !in edited[i]
    ensures FutureEchoShaped(content, Join(edited, " ") + "\n\n" + CorruptionPhrases[k])
  {
    SplitJoin(edited, ' ');
    var joined := Join(edited, " ");
    var tail := "\n\n" + CorruptionPhrases[k];
    var r := Join(edited, " ") + "\n\n" + CorruptionPhrases[k];
    assert r == joined + tail;
    assert r[..|r| - |tail|] == joined;
    assert r[|r| - |tail|..] == tail;
    assert EchoShapedWith(content, r, k);
  }

  // ---------------------------------------------------------------------------
  // alter_past
  // ---------------------------------------------------------------------------

  /** `words.splice(p, 0, x)` on a fresh list: `x` inserted before position `p`. */
  function InsertAt(ws: seq<string>, p: nat, x: string): (r: seq<string>)
    requires p <= |ws|
    ensures |r| == |ws| + 1 && r[p] == x
    ensures forall i | 0 <= i < p :: r[i] == ws[i]
    ensures forall i | p < i < |r| :: r[i] == ws[i - 1]
  {
    ws[..p] + [x] + ws[p..]
  }

  /** The altered-past edit of one word: only a hit on a word longer than 3 splices a glyph in. */
  function CorruptWord(w: string, hit: Option<GlyphIndex>): string {
    if hit.Some? && |w| > 3 then SpliceMid(w, GlitchChars[hit.value]) else w
  }

  function AlterPastWords(content: string, d: TextDraws): seq<string> {
    var words := SplitOn(content, ' ');
    var spliced := InsertAt(words, |words| / 2, CorruptionPhrases[d.phrase]);
    seq(|spliced|, i requires 0 <= i < |spliced| => CorruptWord(spliced[i], d.corrupt(i)))
  }

  /** The altered past: a phrase inserted at the middle word, a few words corrupted, rejoined. */
  function AlterPastText(content: string, d: TextDraws): string {
    Join(AlterPastWords(content, d), " ")
  }

  /**
   * `t` is `u`, or `u` with its middle character replaced by a glyph; words of
   * three characters or fewer are never changed.
   */
  predicate MaybeCorrupted(u: string, t: string) {
    && |t| == |u|
    && (|u| <= 3 ==> t == u)
    && (forall j | 0 <= j < |u| && j != |u| / 2 :: t[j] == u[j])
    && (|u| > 0 ==> t[|u| / 2] == u[|u| / 2] || t[|u| / 2] in GlitchChars)
  }

  /**
   * What every altered past of `content` looks like: the join, on ' ', of
   * `n + 1` words (for `n` words in `content`), which are the original words
   * with one corruption phrase inserted at position `floor(n / 2)`, each one
   * possibly corrupted at its middle.
   */
  ghost predicate AlterPastShaped(content: string, r: string) {
    var words := SplitOn(content, ' ');
    var n := |words|;
    exists k, toks | 0 <= k < |CorruptionPhrases| && r == Join(toks, " ") ::
      var u := InsertAt(words, n / 2, CorruptionPhrases[k]);
      && |toks| == n + 1
      && forall i | 0 <= i < n + 1 :: MaybeCorrupted(u[i], toks[i])
  }

  lemma AlterPastShape(content: string, d: TextDraws)
    ensures AlterPastShaped(content, AlterPastText(content, d))
  {
    var words := SplitOn(content, ' ');
    var n := |words|;
    var u := InsertAt(words, n / 2, CorruptionPhrases[d.phrase]);
    var toks := AlterPastWords(content, d);
    forall i | 0 <= i < n + 1 ensures MaybeCorrupted(u[i], toks[i]) {
      assert toks[i] == CorruptWord(u[i], d.corrupt(i));
    }
    assert AlterPastText(content, d) == Join(toks, " ");
  }

  // ---------------------------------------------------------------------------
  // branch_timeline
  // ---------------------------------------------------------------------------

  predicate IsTerminator(c: char) {
    c == '.' || c == '!' || c == '?'
  }

  /** `s` holds no `.`, `!` or `?`. */
  predicate NoTerminator(s: string) {
    forall j | 0 <= j < |s| :: !IsTerminator(s[j])
  }

  /** A non-empty run of terminators: what one match of `/[.!?]+/` consumes. */
  predicate TerminatorRun(s: string) {
    s != [] && forall j | 0 <= j < |s| :: IsTerminator(s[j])
  }

  /** The length of the run of terminators `s` starts with. */
  function RunLength(s: string): (n: nat)
    ensures n <= |s| && forall j | 0 <= j < n :: IsTerminator(s[j])
    ensures n < |s| ==> !IsTerminator(s[n])
    decreases |s|
  {
    if s != [] && IsTerminator(s[0]) then
      var n := RunLength(s[1..]);
      assert forall j | 1 <= j < n + 1 :: s[j] == s[1..][j - 1];
      n + 1
    else 0
  }

  /** `s.split(/[.!?]+/)`: the pieces between maximal runs of terminators. */
  function SplitSentences(s: string): (r: seq<string>)
    ensures |r| >= 1
    ensures s != [] && !IsTerminator(s[0]) ==> r[0] != []
    decreases |s|
  {
    if s == [] then [[]]
    else if IsTerminator(s[0]) then [[]] + SplitSentences(s[RunLength(s)..])
    else
      var rest := SplitSentences(s[1..]);
      [[s[0]] + rest[0]] + rest[1..]
  }

  /** The runs of terminators in `s`, left to right: where the split cuts. */
  function TerminatorRuns(s: string): (r: seq<string>)
    ensures forall i | 0 <= i < |r| :: TerminatorRun(r[i])
    decreases |s|
  {
    if s == [] then []
    else if IsTerminator(s[0]) then
      var n := RunLength(s);
      var run := s[..n];
      var rest := TerminatorRuns(s[n..]);
      assert TerminatorRun(run);
      assert forall i | 0 < i < |rest| + 1 :: ([run] + rest)[i] == rest[i - 1];
      [run] + rest
    else TerminatorRuns(s[1..])
  }

  /** `ps[0] + rs[0] + ps[1] + rs[1] + ... + ps[n]`: the pieces with the runs between them. */
  function Interleave(ps: seq<string>, rs: seq<string>): string
    requires |ps| >= 1 && |rs| == |ps| - 1
    decreases |ps|
  {
    if |ps| == 1 then ps[0] else ps[0] + rs[0] + Interleave(ps[1..], rs[1..])
  }

  /**
   * `ps` and `rs` cut `s` at its maximal runs of terminators: the pieces hold
   * no terminator, every run is non-empty, every piece between two runs is
   * non-empty (so no two runs touch), and the pieces with the runs between
   * them make up `s`.
   */
  predicate IsSentenceCut(s: string, ps: seq<string>, rs: seq<string>) {
    && |ps| >= 1 && |rs| == |ps| - 1
    && (forall i | 0 <= i < |ps| :: NoTerminator(ps[i]))
    && (forall i | 0 <= i < |rs| :: TerminatorRun(rs[i]))
    && (forall i | 0 < i < |ps| - 1 :: ps[i] != [])
    && Interleave(ps, rs) == s
  }

  lemma InterleavePrefix(x: string, ps: seq<string>, rs: seq<string>)
    requires |ps| >= 1 && |rs| == |ps| - 1
    ensures Interleave([x + ps[0]] + ps[1..], rs) == x + Interleave(ps, rs)
  {
    var qs := [x + ps[0]] + ps[1..];
    assert qs[1..] == ps[1..];
  }

  /**
   * The split and the runs between its pieces cut the text at its maximal
   * runs of terminators, and put back together they give the text.
   */
  lemma SplitSentencesCut(s: string)
    ensures IsSentenceCut(s, SplitSentences(s), TerminatorRuns(s))
  {
    SplitPiecesClean(s);
    SplitRunsCount(s);
    SplitRunsMaximal(s);
    SplitInterleave(s);
  }

  lemma {:induction false} SplitPiecesClean(s: string)
    ensures forall i | 0 <= i < |SplitSentences(s)| :: NoTerminator(SplitSentences(s)[i])
    decreases |s|
  {
    var ps := SplitSentences(s);
    if s == [] {
    } else if IsTerminator(s[0]) {
      SplitPiecesClean(s[RunLength(s)..]);
      assert ps[1..] == SplitSentences(s[RunLength(s)..]);
    } else {
      SplitPiecesClean(s[1..]);
      var q := SplitSentences(s[1..]);
      assert ps[0] == [s[0]] + q[0] && ps[1..] == q[1..];
      assert forall j | 1 <= j < |ps[0]| :: ps[0][j] == q[0][j - 1];
      assert forall i | 0 < i < |ps| :: ps[i] == q[i];
    }
  }

  lemma {:induction false} SplitRunsCount(s: string)
    ensures |TerminatorRuns(s)| == |SplitSentences(s)| - 1
    decreases |s|
  {
    if s == [] {
    } else if IsTerminator(s[0]) {
      SplitRunsCount(s[RunLength(s)..]);
    } else {
      SplitRunsCount(s[1..]);
    }
  }

  lemma {:induction false} SplitRunsMaximal(s: string)
    ensures forall i | 0 < i < |SplitSentences(s)| - 1 :: SplitSentences(s)[i] != []
    decreases |s|
  {
    var ps := SplitSentences(s);
    if s == [] {
    } else if IsTerminator(s[0]) {
      var t := s[RunLength(s)..];
      SplitRunsMaximal(t);
      var p := SplitSentences(t);
      assert ps[1..] == p;
      assert |ps| > 2 ==> t != [] && p[0] != [];
      assert forall i | 1 < i < |ps| - 1 :: ps[i] == p[i - 1];
    } else {
      SplitRunsMaximal(s[1..]);
      var q := SplitSentences(s[1..]);
      assert forall i | 0 < i < |ps| :: ps[i] == q[i];
    }
  }

  lemma InterleaveCons(p: string, ps: seq<string>, r: string, rs: seq<string>)
    requires |ps| >= 1 && |rs| == |ps| - 1
    ensures Interleave([p] + ps, [r] + rs) == p + r + Interleave(ps, rs)
  {
    assert ([p] + ps)[1..] == ps && ([r] + rs)[1..] == rs;
  }

  lemma {:induction false} SplitInterleave(s: string)
    ensures |TerminatorRuns(s)| == |SplitSentences(s)| - 1
    ensures Interleave(SplitSentences(s), TerminatorRuns(s)) == s
    decreases |s|
  {
    if s == [] {
    } else if IsTerminator(s[0]) {
      SplitInterleave(s[RunLength(s)..]);
      InterleaveAfterRun(s);
    } else {
      SplitInterleave(s[1..]);
      InterleaveAfterChar(s);
    }
  }

  lemma InterleaveAfterRun(s: string)
    requires s != [] && IsTerminator(s[0])
    requires var t := s[RunLength(s)..];
      |TerminatorRuns(t)| == |SplitSentences(t)| - 1 && Interleave(SplitSentences(t), TerminatorRuns(t)) == t
    ensures |TerminatorRuns(s)| == |SplitSentences(s)| - 1
    ensures Interleave(SplitSentences(s), TerminatorRuns(s)) == s
  {
    var n := RunLength(s);
    var t := s[n..];
    var run := s[..n];
    var p, r := SplitSentences(t), TerminatorRuns(t);
    assert SplitSentences(s) == [[]] + p;
    assert TerminatorRuns(s) == [run] + r;
    InterleaveCons([], p, run, r);
    assert [] + run == run;
    assert run + t == s;
  }

  lemma InterleaveAfterChar(s: string)
    requires s != [] && !IsTerminator(s[0])
    requires |TerminatorRuns(s[1..])| == |SplitSentences(s[1..])| - 1
    requires Interleave(SplitSentences(s[1..]), TerminatorRuns(s[1..])) == s[1..]
    ensures |TerminatorRuns(s)| == |SplitSentences(s)| - 1
    ensures Interleave(SplitSentences(s), TerminatorRuns(s)) == s
  {
    InterleavePrefix([s[0]], SplitSentences(s[1..]), TerminatorRuns(s[1..]));
    assert [s[0]] + s[1..] == s;
  }

  lemma {:induction false} SplitSentencesPrefix(p: string, t: string)
    requires NoTerminator(p)
    ensures SplitSentences(p + t) == [p + SplitSentences(t)[0]] + SplitSentences(t)[1..]
    decreases |p|
  {
    var q := SplitSentences(t);
    if p == [] {
      assert p + t == t;
      assert p + q[0] == q[0];
      assert q == [q[0]] + q[1..];
    } else {
      var u := p + t;
      assert u[0] == p[0] && u[1..] == p[1..] + t;
      assert forall j | 0 <= j < |p| - 1 :: p[1..][j] == p[j + 1];
      SplitSentencesPrefix(p[1..], t);
      var rest := SplitSentences(p[1..] + t);
      assert SplitSentences(u) == [[p[0]] + rest[0]] + rest[1..];
      assert rest[0] == p[1..] + q[0] && rest[1..] == q[1..];
      assert [p[0]] + (p[1..] + q[0]) == p + q[0];
    }
  }

  lemma {:induction false} RunLengthOfRun(r: string, t: string)
    requires TerminatorRun(r) && (t == [] || !IsTerminator(t[0]))
    ensures RunLength(r + t) == |r|
    decreases |r|
  {
    assert (r + t)[0] == r[0];
    assert (r + t)[1..] == r[1..] + t;
    if |r| > 1 {
      RunLengthOfRun(r[1..], t);
    }
  }

  /** Dropping the first piece and the first run of a cut leaves a cut of the rest. */
  lemma CutTail(s: string, ps: seq<string>, rs: seq<string>)
    requires IsSentenceCut(s, ps, rs) && |ps| > 1
    ensures IsSentenceCut(Interleave(ps[1..], rs[1..]), ps[1..], rs[1..])
    ensures s == ps[0] + (rs[0] + Interleave(ps[1..], rs[1..]))
    ensures var t := Interleave(ps[1..], rs[1..]); t == [] || !IsTerminator(t[0])
  {
    var t := Interleave(ps[1..], rs[1..]);
    assert forall i | 0 < i < |ps| - 2 :: ps[1..][i] == ps[i + 1];
    if |ps| > 2 {
      assert t == ps[1] + (rs[1] + Interleave(ps[2..], rs[2..]));
      assert t[0] == ps[1][0];
    }
  }

  /**
   * A cut at maximal runs of terminators is unique: any such cut of `s` is
   * the one `split(/[.!?]+/)` returns.
   */
  lemma {:induction false} SplitSentencesUnique(s: string, ps: seq<string>, rs: seq<string>)
    requires IsSentenceCut(s, ps, rs)
    ensures SplitSentences(s) == ps
    decreases |ps|
  {
    if |ps| == 1 {
      SplitSentencesPrefix(ps[0], []);
      assert ps[0] + [] == ps[0];
    } else {
      var t := Interleave(ps[1..], rs[1..]);
      CutTail(s, ps, rs);
      SplitSentencesUnique(t, ps[1..], rs[1..]);
      RunLengthOfRun(rs[0], t);
      assert (rs[0] + t)[|rs[0]|..] == t;
      assert (rs[0] + t)[0] == rs[0][0];
      assert SplitSentences(rs[0] + t) == [[]] + ps[1..];
      SplitSentencesPrefix(ps[0], rs[0] + t);
      assert ps[0] + [] == ps[0];
      assert ps == [ps[0]] + ps[1..];
    }
  }

  /**
   * `.filter(s => s.trim())`. The trimmed text is the empty string, which is
   * falsy, exactly when the piece is all whitespace (the first ensures of
   * `Trim`), so the filter keeps the pieces that are not all whitespace.
   */
  function NonBlank(ss: seq<string>): (r: seq<string>)
    ensures forall i | 0 <= i < |r| :: !AllWhitespace(r[i])
  {
    if ss == [] then [] else (if !AllWhitespace(ss[0]) then [ss[0]] else []) + NonBlank(ss[1..])
  }

  /**
   * The filter drops only blank pieces: each non-blank piece is kept as often
   * as it occurs, and nothing is kept that is not in the input.
   */
  lemma {:induction false} NonBlankCounts(ss: seq<string>)
    ensures forall x | !AllWhitespace(x) :: multiset(NonBlank(ss))[x] == multiset(ss)[x]
    ensures multiset(NonBlank(ss)) <= multiset(ss)
    decreases |ss|
  {
    if ss != [] {
      NonBlankCounts(ss[1..]);
      assert ss == [ss[0]] + ss[1..];
    }
  }

  /** The filter works piece by piece, so it keeps the order of the pieces. */
  lemma {:induction false} NonBlankAppend(a: seq<string>, b: seq<string>)
    ensures NonBlank(a + b) == NonBlank(a) + NonBlank(b)
    decreases |a|
  {
    if a == [] {
      assert a + b == b;
    } else {
      assert (a + b)[0] == a[0] && (a + b)[1..] == a[1..] + b;
      NonBlankAppend(a[1..], b);
    }
  }

  lemma {:induction false} NonBlankKeepsAll(ss: seq<string>)
    requires forall i | 0 <= i < |ss| :: !AllWhitespace(ss[i])
    ensures NonBlank(ss) == ss
    decreases |ss|
  {
    if ss != [] {
      NonBlankKeepsAll(ss[1..]);
    }
  }

  /** The non-blank sentences of a text. */
  function Sentences(content: string): seq<string> {
    NonBlank(SplitSentences(content))
  }

  /** The half of a branch that is kept: the sentences joined by ". " and closed by a period. */
  function BranchOpening(kept: seq<string>): string {
    Join(kept, ". ") + "."
  }

  /**
   * The branch rewrite: with more than one sentence, the first half of them
   * joined by ". ", a period and a divergent ending; otherwise the original
   * text with the fixed continuation appended.
   */
  function BranchText(content: string, d: TextDraws): string {
    var sentences := Sentences(content);
    if |sentences| > 1 then BranchOpening(sentences[..|sentences| / 2]) + DivergentEndings[d.ending]
    else content + BranchContinuation
  }

  /** Whatever is drawn, the branch rewrite has one of these two forms. */
  lemma BranchShape(content: string, d: TextDraws)
    ensures var ss := Sentences(content); var r := BranchText(content, d);
      && (|ss| <= 1 ==> r == content + BranchContinuation)
      && (|ss| > 1 ==> exists k | 0 <= k < |DivergentEndings| ::
            r == BranchOpening(ss[..|ss| / 2]) + DivergentEndings[k])
  {
    var ss := Sentences(content);
    if |ss| > 1 {
      var k := d.ending;
      assert BranchText(content, d) == BranchOpening(ss[..|ss| / 2]) + DivergentEndings[k];
    }
  }

  /** The branch rewrite always opens like the original: on its first sentence, or on the whole text. */
  lemma BranchKeepsOpening(content: string, d: TextDraws)
    ensures var ss := Sentences(content); var r := BranchText(content, d);
      && (|ss| <= 1 ==> content <= r)
      && (|ss| > 1 ==> ss[0] <= r)
  {
  }

  /** `[" " + xs[0], " " + xs[1], ...]`: sentences as the ". " join leaves them to the next split. */
  function Spaced(xs: seq<string>): (r: seq<string>)
    ensures |r| == |xs| && forall i | 0 <= i < |xs| :: r[i] == " " + xs[i]
  {
    if xs == [] then [] else [" " + xs[0]] + Spaced(xs[1..])
  }

  function Periods(n: nat): (r: seq<string>)
    ensures |r| == n && forall i | 0 <= i < n :: r[i] == "."
  {
    seq(n, _ => ".")
  }

  lemma {:induction false} OpeningInterleave(xs: seq<string>)
    requires |xs| >= 1
    ensures Interleave([xs[0]] + Spaced(xs[1..]) + [[]], Periods(|xs|)) == BranchOpening(xs)
    decreases |xs|
  {
    var ps := [xs[0]] + Spaced(xs[1..]) + [[]];
    var rs := Periods(|xs|);
    if |xs| == 1 {
      assert ps == [xs[0], []];
      assert ps[1..] == [[]];
    } else {
      var ys := xs[1..];
      var qs := [ys[0]] + Spaced(ys[1..]) + [[]];
      assert ys[1..] == xs[2..];
      assert Spaced(ys) == [" " + ys[0]] + Spaced(ys[1..]);
      assert ps[1..] == [" " + qs[0]] + qs[1..];
      assert rs[1..] == Periods(|ys|);
      OpeningInterleave(ys);
      InterleavePrefix(" ", qs, rs[1..]);
      assert Join(xs, ". ") == xs[0] + ". " + Join(ys, ". ");
    }
  }

  lemma OpeningCut(xs: seq<string>)
    requires |xs| >= 1
    requires forall i | 0 <= i < |xs| :: NoTerminator(xs[i]) && !AllWhitespace(xs[i])
    ensures IsSentenceCut(BranchOpening(xs), [xs[0]] + Spaced(xs[1..]) + [[]], Periods(|xs|))
  {
    var ps := [xs[0]] + Spaced(xs[1..]) + [[]];
    OpeningInterleave(xs);
    forall i | 0 <= i < |ps|
      ensures NoTerminator(ps[i])
    {
      if 0 < i < |xs| {
        assert ps[i] == " " + xs[i];
        assert forall j | 1 <= j < |ps[i]| :: ps[i][j] == xs[i][j - 1];
      }
    }
    assert forall i | 0 < i < |ps| - 1 :: ps[i] == " " + xs[i];
  }

  lemma KeptNonBlank(xs: seq<string>)
    requires |xs| >= 1
    requires forall i | 0 <= i < |xs| :: !AllWhitespace(xs[i])
    ensures NonBlank([xs[0]] + Spaced(xs[1..]) + [[]]) == [xs[0]] + Spaced(xs[1..])
  {
    var kept := [xs[0]] + Spaced(xs[1..]);
    forall i | 0 < i < |xs|
      ensures !AllWhitespace(" " + xs[i])
    {
      BlankAfterSpace(xs[i]);
    }
    assert forall i | 0 < i < |kept| :: kept[i] == " " + xs[i];
    NonBlankKeepsAll(kept);
    NonBlankAppend(kept, [[]]);
  }

  /**
   * The kept half reads back as the sentences it was made of: split and
   * filtered again, it gives the same number of sentences, the first one
   * unchanged and each later one behind the space of the join.
   */
  lemma BranchOpeningSentences(xs: seq<string>)
    requires |xs| >= 1
    requires forall i | 0 <= i < |xs| :: NoTerminator(xs[i]) && !AllWhitespace(xs[i])
    ensures Sentences(BranchOpening(xs)) == [xs[0]] + Spaced(xs[1..])
  {
    OpeningCut(xs);
    SplitSentencesUnique(BranchOpening(xs), [xs[0]] + Spaced(xs[1..]) + [[]], Periods(|xs|));
    KeptNonBlank(xs);
  }

  /** Every sentence of a text is non-blank and holds no terminator. */
  lemma SentencesClean(content: string)
    ensures forall i | 0 <= i < |Sentences(content)| ::
      NoTerminator(Sentences(content)[i]) && !AllWhitespace(Sentences(content)[i])
  {
    var ps := SplitSentences(content);
    var ss := NonBlank(ps);
    SplitPiecesClean(content);
    NonBlankCounts(ps);
    forall i | 0 <= i < |ss|
      ensures NoTerminator(ss[i])
    {
      assert ss[i] in multiset(ss);
      assert ss[i] in ps;
    }
  }

  lemma OpeningHalf(ss: seq<string>)
    requires |ss| > 1
    requires forall i | 0 <= i < |ss| :: NoTerminator(ss[i]) && !AllWhitespace(ss[i])
    ensures var h := |ss| / 2; var back := Sentences(BranchOpening(ss[..h]));
      && |back| == h && back[0] == ss[0]
      && forall i | 0 < i < h :: back[i] == " " + ss[i]
  {
    var kept := ss[..|ss| / 2];
    assert forall i | 0 <= i < |kept| :: kept[i] == ss[i];
    BranchOpeningSentences(kept);
    assert forall i | 0 < i < |kept| :: Spaced(kept[1..])[i - 1] == " " + kept[i];
  }

  /**
   * With more than one sentence, the branch keeps exactly the first half of
   * them: its opening splits back into `floor(k/2)` sentences, which are the
   * original first sentences (the later ones behind the join's space).
   */
  lemma BranchKeepsFirstHalf(content: string)
    ensures var ss := Sentences(content); var h := |ss| / 2;
      |ss| > 1 ==>
        var back := Sentences(BranchOpening(ss[..h]));
        && |back| == h && back[0] == ss[0]
        && forall i | 0 < i < h :: back[i] == " " + ss[i]
  {
    if |Sentences(content)| > 1 {
      SentencesClean(content);
      OpeningHalf(Sentences(content));
    }
  }

  // ---------------------------------------------------------------------------
  // distortText
  // ---------------------------------------------------------------------------

  /** `distortText(content, mode)` with the draws made explicit. */
  function DistortText(content: string, mode: AnomalyMode, d: TextDraws): string {
    match mode
    case FutureEcho => FutureEchoText(content, d)
    case AlterPast => AlterPastText(content, d)
    case BranchTimeline => BranchText(content, d)
  }

  // ---------------------------------------------------------------------------
  // Picking entries
  // ---------------------------------------------------------------------------

  /** `getRandomEntry`: nothing for an empty list, otherwise the element the pick draws. */
  function RandomEntry<T>(a: seq<T>, pick: nat): (r: Option<T>)
    requires |a| == 0 || pick < |a|
    ensures r.None? <==> |a| == 0
    ensures r.Some? ==> r.value in a
  {
    if |a| == 0 then None else Some(a[pick])
  }

  /**
   * The index the `reduce` of `getOldestEntry` settles on among the first `k`
   * entries: its `createdAt` is minimal, and every earlier entry is strictly
   * younger (the strict `<` keeps the first on ties).
   */
  function OldestIndexIn(a: seq<Entry>, k: nat): (r: nat)
    requires 1 <= k <= |a|
    ensures r < k
    ensures forall j | 0 <= j < k :: a[r].createdAt <= a[j].createdAt
    ensures forall j | 0 <= j < r :: a[j].createdAt > a[r].createdAt
  {
    if k == 1 then 0
    else
      var acc := OldestIndexIn(a, k - 1);
      if a[k - 1].createdAt < a[acc].createdAt then k - 1 else acc
  }

  function OldestIndex(a: seq<Entry>): (r: nat)
    requires |a| > 0
    ensures r < |a|
    ensures forall j | 0 <= j < |a| :: a[r].createdAt <= a[j].createdAt
    ensures forall j | 0 <= j < r :: a[j].createdAt > a[r].createdAt
  {
    OldestIndexIn(a, |a|)
  }

  /** `getOldestEntry`: nothing for an empty list, otherwise an entry no other entry predates. */
  function OldestEntry(a: seq<Entry>): (r: Option<Entry>)
    ensures r.None? <==> |a| == 0
    ensures r.Some? ==> r.value in a && forall j | 0 <= j < |a| :: r.value.createdAt <= a[j].createdAt
  {
    if |a| == 0 then None else Some(a[OldestIndex(a)])
  }

  /** The two properties of `OldestIndex` single out one index. */
  lemma OldestIndexUnique(a: seq<Entry>, i: nat)
    requires i < |a|
    requires forall j | 0 <= j < |a| :: a[i].createdAt <= a[j].createdAt
    requires forall j | 0 <= j < i :: a[j].createdAt > a[i].createdAt
    ensures i == OldestIndex(a)
  {
  }

  /**
   * Appending an entry no older than any other does not change which entry is
   * the oldest: with a clock that never goes back, the altered past always
   * rewrites the same entry.
   */
  lemma OldestStableUnderAppend(a: seq<Entry>, e: Entry)
    requires |a| > 0
    requires forall j | 0 <= j < |a| :: a[j].createdAt <= e.createdAt
    ensures OldestIndex(a + [e]) == OldestIndex(a)
  {
    var o := OldestIndex(a);
    var b := a + [e];
    assert forall j | 0 <= j < |b| :: b[o].createdAt <= b[j].createdAt by {
      assert forall j | 0 <= j < |a| :: b[j] == a[j];
    }
    OldestIndexUnique(b, o);
  }
}
