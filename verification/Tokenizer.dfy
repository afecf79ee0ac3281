/** Splitting a string at a set of separator strings.
    Source: common/string_utils.cpp (`string_utils::tokenize`). */
module Tokenizer {
  import opened Common

  predicate Matches(text: string, separator: string, at: nat) {
    at + |separator| <= |text| && text[at..at + |separator|] == separator
  }

  /** `string::find`: the first occurrence at or after `from`. */
  function FindFrom(text: string, separator: string, from: nat): (r: Option<nat>)
    ensures r.Some? ==> from <= r.value && Matches(text, separator, r.value)
                        && forall q :: from <= q < r.value ==> !Matches(text, separator, q)
    ensures r.None? ==> forall q :: from <= q ==> !Matches(text, separator, q)
    decreases |text| - from
  {
    if from + |separator| > |text| then None
    else if Matches(text, separator, from) then Some(from)
    else FindFrom(text, separator, from + 1)
  }

  // ---------- the specification ----------

  datatype Piece = Token(s: string) | Gap(s: string)

  ghost predicate StartsSeparator(text: string, separators: set<string>, at: nat) {
    exists s :: s in separators && Matches(text, s, at)
  }

  /** `s` is the longest separator that occurs at `at`. */
  ghost predicate LongestAt(text: string, separators: set<string>, at: nat, s: string) {
    s in separators && Matches(text, s, at)
    && forall t :: t in separators && Matches(text, t, at) ==> |t| <= |s|
  }

  ghost predicate SeparatorFree(text: string, separators: set<string>, from: nat, to: nat) {
    forall q :: from <= q < to ==> !StartsSeparator(text, separators, q)
  }

  /** `p` is what has to come next at `from`: a token is not empty, no separator starts inside it
      and it reaches as far as possible; a gap is the longest separator at its place. */
  ghost predicate Fits(text: string, separators: set<string>, from: nat, p: Piece) {
    && p.s != [] && Matches(text, p.s, from)
    && match p
       case Token(s) => SeparatorFree(text, separators, from, from + |s|)
                        && (from + |s| < |text| ==> StartsSeparator(text, separators, from + |s|))
       case Gap(s) => LongestAt(text, separators, from, s)
  }

  /** What may come next, as a rule on its own. */
  ghost function Rule(text: string, separators: set<string>): (nat, Piece) -> bool {
    (from: nat, p: Piece) => Fits(text, separators, from, p)
  }

  /** `pieces` lead from `from` to `to`, each one allowed by `rule` where it starts. */
  ghost predicate Leads(rule: (nat, Piece) -> bool, from: nat, to: nat, pieces: seq<Piece>)
    decreases |pieces|
  {
    if pieces == [] then from == to
    else rule(from, pieces[0]) && Leads(rule, from + |pieces[0].s|, to, pieces[1..])
  }

  /** `pieces` cut the whole text. */
  ghost predicate Cuts(text: string, separators: set<string>, pieces: seq<Piece>) {
    Leads(Rule(text, separators), 0, |text|, pieces)
  }

  lemma {:induction false} LeadsOn(rule: (nat, Piece) -> bool, from: nat, to: nat, pieces: seq<Piece>, p: Piece)
    requires Leads(rule, from, to, pieces) && rule(to, p)
    ensures Leads(rule, from, to + |p.s|, pieces + [p])
    decreases |pieces|
  {
    if pieces == [] {
      assert pieces + [p] == [p];
    } else {
      var longer := pieces + [p];
      assert longer[0] == pieces[0] && longer[1..] == pieces[1..] + [p];
      LeadsOn(rule, from + |pieces[0].s|, to, pieces[1..], p);
    }
  }

  /** If at most one piece is ever allowed, and never an empty one, there is at most one way. */
  lemma {:induction false} LeadsUniquely(rule: (nat, Piece) -> bool, from: nat, to: nat, pieces: seq<Piece>, others: seq<Piece>)
    requires forall at: nat, p, q :: rule(at, p) && rule(at, q) ==> p == q
    requires forall at: nat, p :: rule(at, p) ==> p.s != [] && at + |p.s| <= to
    requires Leads(rule, from, to, pieces) && Leads(rule, from, to, others)
    ensures pieces == others
    decreases |pieces|
  {
    if pieces != [] && others != [] {
      LeadsUniquely(rule, from + |pieces[0].s|, to, pieces[1..], others[1..]);
      assert pieces == [pieces[0]] + pieces[1..] && others == [others[0]] + others[1..];
    }
  }

  function TokensOf(pieces: seq<Piece>): seq<string> {
    if pieces == [] then []
    else (if pieces[0].Token? then [pieces[0].s] else []) + TokensOf(pieces[1..])
  }

  function Joined(pieces: seq<Piece>): string {
    if pieces == [] then "" else pieces[0].s + Joined(pieces[1..])
  }

  lemma {:induction false} PiecesRebuildFrom(text: string, separators: set<string>, from: nat, pieces: seq<Piece>)
    requires Leads(Rule(text, separators), from, |text|, pieces)
    ensures from <= |text| && Joined(pieces) == text[from..]
    decreases |pieces|
  {
    if pieces != [] {
      var p := pieces[0];
      assert Fits(text, separators, from, p);
      PiecesRebuildFrom(text, separators, from + |p.s|, pieces[1..]);
      RestSplits(text, p.s, from);
    }
  }

  lemma RestSplits(text: string, s: string, from: nat)
    requires Matches(text, s, from)
    ensures text[from..] == s + text[from + |s|..]
  {
  }

  /** The tokens and the skipped separators rebuild the input. */
  lemma PiecesRebuildText(text: string, separators: set<string>, pieces: seq<Piece>)
    requires Cuts(text, separators, pieces)
    ensures Joined(pieces) == text
  {
    PiecesRebuildFrom(text, separators, 0, pieces);
  }

  lemma {:induction false} LeadsAt(rule: (nat, Piece) -> bool, from: nat, to: nat, pieces: seq<Piece>, k: nat)
    requires Leads(rule, from, to, pieces) && k < |pieces|
    ensures rule(from + |Joined(pieces[..k])|, pieces[k])
    decreases k
  {
    if k == 0 {
      assert Joined(pieces[..0]) == "";
    } else {
      var rest := pieces[1..];
      LeadsAt(rule, from + |pieces[0].s|, to, rest, k - 1);
      assert pieces[..k][0] == pieces[0] && pieces[..k][1..] == rest[..k - 1];
    }
  }

  /** Every piece fits at the place where it starts. */
  lemma PiecesFit(text: string, separators: set<string>, pieces: seq<Piece>, k: nat)
    requires Cuts(text, separators, pieces) && k < |pieces|
    ensures Fits(text, separators, |Joined(pieces[..k])|, pieces[k])
  {
    LeadsAt(Rule(text, separators), 0, |text|, pieces, k);
  }

  /** Where one separator begins another, the longer one is skipped. */
  lemma LongerSeparatorWins()
    ensures Cuts("a-xb", {"-", "-x"}, [Token("a"), Gap("-x"), Token("b")])
  {
    var text, separators := "a-xb", {"-", "-x"};
    assert Matches(text, "-", 1) && Matches(text, "-x", 1) && !Matches(text, "-", 0) && !Matches(text, "-x", 0);
    assert !Matches(text, "-", 3) && !Matches(text, "-x", 3);
    assert Fits(text, separators, 0, Token("a")) && Fits(text, separators, 1, Gap("-x")) && Fits(text, separators, 3, Token("b"));
    var rule := Rule(text, separators);
    assert Leads(rule, 4, 4, []);
    LeadsFirst(rule, 3, 4, Token("b"), []);
    LeadsFirst(rule, 1, 4, Gap("-x"), [Token("b")]);
    LeadsFirst(rule, 0, 4, Token("a"), [Gap("-x"), Token("b")]);
    assert [Token("b")] + [] == [Token("b")];
    assert [Gap("-x")] + [Token("b")] == [Gap("-x"), Token("b")];
    assert [Token("a")] + [Gap("-x"), Token("b")] == [Token("a"), Gap("-x"), Token("b")];
  }

  lemma LeadsFirst(rule: (nat, Piece) -> bool, from: nat, to: nat, p: Piece, rest: seq<Piece>)
    requires rule(from, p) && Leads(rule, from + |p.s|, to, rest)
    ensures Leads(rule, from, to, [p] + rest)
  {
    assert ([p] + rest)[1..] == rest;
  }

  lemma MatchesSameLength(text: string, s: string, t: string, at: nat)
    requires Matches(text, s, at) && Matches(text, t, at) && |s| == |t|
    ensures s == t
  {
  }

  /** There is only one way to cut a text. */
  lemma CutIsUnique(text: string, separators: set<string>, pieces: seq<Piece>, others: seq<Piece>)
    requires Cuts(text, separators, pieces) && Cuts(text, separators, others)
    ensures pieces == others
  {
    var rule := Rule(text, separators);
    forall at: nat, p, q | rule(at, p) && rule(at, q) ensures p == q {
      FirstPieceIsUnique(text, separators, at, p, q);
    }
    LeadsUniquely(rule, 0, |text|, pieces, others);
  }

  lemma FirstPieceIsUnique(text: string, separators: set<string>, from: nat, p: Piece, q: Piece)
    requires Fits(text, separators, from, p) && Fits(text, separators, from, q)
    ensures p == q
  {
    assert p.Gap? <==> StartsSeparator(text, separators, from);
    assert q.Gap? <==> StartsSeparator(text, separators, from);
    if p.Token? {
      TokenNotShorter(text, separators, from, |p.s|, |q.s|);
      TokenNotShorter(text, separators, from, |q.s|, |p.s|);
    }
    MatchesSameLength(text, p.s, q.s, from);
  }

  lemma TokenNotShorter(text: string, separators: set<string>, from: nat, length: nat, other: nat)
    requires from + length < |text| ==> StartsSeparator(text, separators, from + length)
    requires SeparatorFree(text, separators, from, from + other) && from + other <= |text|
    ensures length >= other
  {
  }

  /** `list` is some order of a set of separators. */
  ghost predicate Lists(list: seq<string>, separators: set<string>) {
    forall s :: s in list <==> s in separators
  }

  // ---------- the search for the next separator ----------

  /** Among the first `k` separators of `list`, `offset` is the earliest place at or after `from`
      where one occurs (the end of the text if none does), and `length` the longest there. */
  ghost predicate BestOf(text: string, list: seq<string>, k: nat, from: nat, offset: nat, length: nat) {
    && k <= |list| && from <= offset <= |text|
    && (forall j, q :: 0 <= j < k && from <= q < offset ==> !Matches(text, list[j], q))
    && (forall j :: 0 <= j < k && Matches(text, list[j], offset) ==> |list[j]| <= length)
    && (offset < |text| ==> exists j :: 0 <= j < k && Matches(text, list[j], offset) && |list[j]| == length)
    && (offset == |text| ==> length == 0)
  }

  /** The search over the first `k` separators: the earliest occurrence, the longest there. */
  function Best(text: string, list: seq<string>, k: nat, from: nat): (nat, nat)
    requires k <= |list| && from < |text|
  {
    if k == 0 then (|text|, 0)
    else
      var best := Best(text, list, k - 1, from);
      var find := FindFrom(text, list[k - 1], from);
      if find.None? then best
      else if find.value < best.0 then (find.value, |list[k - 1]|)
      else if find.value == best.0 && best.1 < |list[k - 1]| then (best.0, |list[k - 1]|)
      else best
  }

  lemma {:induction false} BestIsBest(text: string, list: seq<string>, k: nat, from: nat)
    requires k <= |list| && from < |text|
    ensures var best := Best(text, list, k, from);
            BestOf(text, list, k, from, best.0, best.1)
  {
    if k > 0 {
      BestIsBest(text, list, k - 1, from);
    }
  }

  method NextSeparator(text: string, list: seq<string>, from: nat) returns (offset: nat, length: nat)
    requires from < |text|
    ensures (offset, length) == Best(text, list, |list|, from)
    ensures BestOf(text, list, |list|, from, offset, length)
  {
    BestIsBest(text, list, |list|, from);
    offset := |text|;
    length := 0;
    for k := 0 to |list|
      invariant (offset, length) == Best(text, list, k, from)
    {
      var separator := list[k];
      var find := FindFrom(text, separator, from);
      if find.Some? {
        if find.value < offset {
          offset := find.value;
          length := |separator|;
        } else if find.value == offset && length < |separator| {
          length := |separator|;
        }
      }
    }
  }

  // ---------- when the loop ends ----------

  /** Where the next round starts. */
  function NextOffset(text: string, list: seq<string>, from: nat): nat
    requires from < |text|
  {
    var best := Best(text, list, |list|, from);
    best.0 + best.1
  }

  /** The loop ends within the given number of rounds. */
  predicate Ends(text: string, list: seq<string>, from: nat, rounds: nat)
    decreases rounds
  {
    from >= |text| || (rounds > 0 && Ends(text, list, NextOffset(text, list, from), rounds - 1))
  }

  /** The call terminates. */
  ghost predicate Terminates(text: string, list: seq<string>) {
    exists rounds: nat :: Ends(text, list, 0, rounds)
  }

  /** The longest non-empty separator at a place; zero if there is none. */
  function LongestHere(text: string, list: seq<string>, at: nat): nat {
    if list == [] then 0
    else
      var rest := LongestHere(text, list[1..], at);
      if Matches(text, list[0], at) && rest < |list[0]| then |list[0]| else rest
  }

  lemma {:induction false} LongestHereIsLongest(text: string, list: seq<string>, at: nat)
    ensures forall j :: 0 <= j < |list| && Matches(text, list[j], at) ==> |list[j]| <= LongestHere(text, list, at)
    ensures LongestHere(text, list, at) > 0
            ==> exists j :: 0 <= j < |list| && |list[j]| == LongestHere(text, list, at) && Matches(text, list[j], at)
  {
    if list != [] {
      var n, rest := LongestHere(text, list, at), list[1..];
      LongestHereIsLongest(text, rest, at);
      forall j | 0 <= j < |list| && Matches(text, list[j], at) ensures |list[j]| <= n {
        assert j > 0 ==> rest[j - 1] == list[j];
      }
      if n > 0 && n == LongestHere(text, rest, at) {
        var j :| 0 <= j < |rest| && |rest[j]| == n && Matches(text, rest[j], at);
        assert list[j + 1] == rest[j];
      }
    }
  }

  /** From `from` on, the text is nothing but separators, the longest one taken at each place. */
  predicate OnlySeparators(text: string, list: seq<string>, from: nat)
    decreases |text| - from
  {
    if from >= |text| then true
    else
      var n := LongestHere(text, list, from);
      n > 0 && OnlySeparators(text, list, from + n)
  }

  /** The inputs `tokenize` returns from, decided before the call. */
  predicate Safe(text: string, list: seq<string>, from: nat) {
    "" !in list || OnlySeparators(text, list, from)
  }

  /** A round makes progress exactly when the empty separator is absent or some other separator
      occurs right here. */
  lemma ProgressExact(text: string, list: seq<string>, from: nat)
    requires from < |text|
    ensures NextOffset(text, list, from) > from <==> "" !in list || LongestHere(text, list, from) > 0
    ensures "" in list ==> NextOffset(text, list, from) == from + LongestHere(text, list, from)
    ensures from <= NextOffset(text, list, from) <= |text|
  {
    BestIsBest(text, list, |list|, from);
    LongestHereIsLongest(text, list, from);
    if "" in list {
      var e :| 0 <= e < |list| && list[e] == "";
      assert Matches(text, list[e], from);
    }
  }

  lemma {:induction false} StuckStays(text: string, list: seq<string>, from: nat, rounds: nat)
    requires from < |text| && NextOffset(text, list, from) == from
    ensures !Ends(text, list, from, rounds)
  {
    if rounds > 0 {
      StuckStays(text, list, from, rounds - 1);
    }
  }

  lemma {:induction false} SafeEnds(text: string, list: seq<string>, from: nat) returns (rounds: nat)
    requires Safe(text, list, from)
    ensures Ends(text, list, from, rounds)
    decreases |text| - from
  {
    rounds := 0;
    if from < |text| {
      ProgressExact(text, list, from);
      rounds := SafeEnds(text, list, NextOffset(text, list, from));
      rounds := rounds + 1;
    }
  }

  lemma {:induction false} EndsOnlyIfSafe(text: string, list: seq<string>, from: nat, rounds: nat)
    requires Ends(text, list, from, rounds)
    ensures Safe(text, list, from)
    decreases rounds
  {
    if from < |text| {
      ProgressExact(text, list, from);
      if NextOffset(text, list, from) == from {
        StuckStays(text, list, from, rounds);
      } else {
        EndsOnlyIfSafe(text, list, NextOffset(text, list, from), rounds - 1);
      }
    }
  }

  /** The call terminates if and only if the empty separator is absent or the text consists of
      non-empty separators. */
  lemma TerminationExact(text: string, list: seq<string>)
    ensures Terminates(text, list) <==> "" !in list || OnlySeparators(text, list, 0)
  {
    if Safe(text, list, 0) {
      var rounds := SafeEnds(text, list, 0);
    }
    if Terminates(text, list) {
      var rounds: nat :| Ends(text, list, 0, rounds);
      EndsOnlyIfSafe(text, list, 0, rounds);
    }
  }

  // ---------- tokenizing ----------

  /** The separators that can be skipped. */
  function NonEmpty(separators: set<string>): set<string> {
    separators - {""}
  }

  /** A round from a safe place makes progress to a safe place. */
  lemma RoundIsSafe(text: string, list: seq<string>, from: nat)
    requires from < |text| && Safe(text, list, from)
    ensures var best := Best(text, list, |list|, from);
            from < best.0 + best.1 && (best.0 < |text| ==> 0 < best.1) && Safe(text, list, best.0 + best.1)
  {
    ProgressExact(text, list, from);
    BestIsBest(text, list, |list|, from);
    if "" in list {
      NothingBeforeEmpty(text, list, from);
    }
  }

  lemma NothingBeforeEmpty(text: string, list: seq<string>, from: nat)
    requires from < |text| && "" in list
    ensures Best(text, list, |list|, from).0 == from
  {
    BestIsBest(text, list, |list|, from);
    var j :| 0 <= j < |list| && list[j] == "";
    assert Matches(text, list[j], from);
  }

  lemma NothingEarlier(text: string, list: seq<string>, separators: set<string>, from: nat, offset: nat, length: nat)
    requires BestOf(text, list, |list|, from, offset, length) && Lists(list, separators)
    ensures SeparatorFree(text, separators, from, offset)
  {
    forall q | from <= q < offset ensures !StartsSeparator(text, separators, q) {
      forall s | s in separators ensures !Matches(text, s, q) {
        var j :| 0 <= j < |list| && list[j] == s;
      }
    }
  }

  lemma LongestThere(text: string, list: seq<string>, separators: set<string>, from: nat, offset: nat, length: nat)
    requires BestOf(text, list, |list|, from, offset, length) && Lists(list, separators)
    requires offset < |text| && 0 < length
    ensures offset + length <= |text| && StartsSeparator(text, NonEmpty(separators), offset)
    ensures LongestAt(text, NonEmpty(separators), offset, text[offset..offset + length])
  {
    var j :| 0 <= j < |list| && Matches(text, list[j], offset) && |list[j]| == length;
    var s := list[j];
    assert s in NonEmpty(separators) && text[offset..offset + length] == s;
    forall t | t in separators && Matches(text, t, offset) ensures |t| <= |s| {
      var i :| 0 <= i < |list| && list[i] == t;
    }
  }

  /** What a round that starts at `from` cuts off: a token, if there is something before the next
      separator, and the separator, if there is one. */
  ghost predicate CutsOff(rule: (nat, Piece) -> bool, from: nat, token: string, gap: string, next: nat) {
    && next == from + |token| + |gap|
    && (token != "" ==> rule(from, Token(token)))
    && (gap != "" ==> rule(from + |token|, Gap(gap)))
  }

  /** The best among all separators is where a token ends and what is skipped there. */
  lemma BestCutsOff(text: string, list: seq<string>, separators: set<string>, from: nat, offset: nat, length: nat)
    requires BestOf(text, list, |list|, from, offset, length) && Lists(list, separators)
    requires offset < |text| ==> 0 < length
    ensures offset + length <= |text|
    ensures CutsOff(Rule(text, NonEmpty(separators)), from, text[from..offset], text[offset..offset + length], offset + length)
  {
    NothingEarlier(text, list, separators, from, offset, length);
    if offset < |text| {
      LongestThere(text, list, separators, from, offset, length);
      assert Fits(text, NonEmpty(separators), offset, Gap(text[offset..offset + length]));
    }
    if from < offset {
      assert Fits(text, NonEmpty(separators), from, Token(text[from..offset]));
    }
  }

  /** One round of the loop. */
  method Round(original: string, list: seq<string>, ghost separators: set<string>, currentOffset: nat)
    returns (token: string, next: nat, ghost gap: string)
    requires currentOffset < |original| && Lists(list, separators) && Safe(original, list, currentOffset)
    ensures currentOffset < next <= |original| && Safe(original, list, next)
    ensures CutsOff(Rule(original, NonEmpty(separators)), currentOffset, token, gap, next)
  {
    var offset, length := NextSeparator(original, list, currentOffset);
    RoundIsSafe(original, list, currentOffset);
    BestCutsOff(original, list, separators, currentOffset, offset, length);
    token := original[currentOffset..offset];
    gap := original[offset..offset + length];
    next := offset + length;
  }

  /** What has been cut off so far. */
  ghost predicate CutSoFar(rule: (nat, Piece) -> bool, to: nat, pieces: seq<Piece>, result: seq<string>) {
    Leads(rule, 0, to, pieces) && result == TokensOf(pieces)
  }

  function PiecesOf(token: string, gap: string): seq<Piece> {
    (if token == "" then [] else [Token(token)]) + (if gap == "" then [] else [Gap(gap)])
  }

  lemma OnePieceOn(rule: (nat, Piece) -> bool, to: nat, pieces: seq<Piece>, result: seq<string>, p: Piece)
    requires CutSoFar(rule, to, pieces, result) && rule(to, p)
    ensures CutSoFar(rule, to + |p.s|, pieces + [p], result + if p.Token? then [p.s] else [])
  {
    LeadsOn(rule, 0, to, pieces, p);
    TokensOfAppend(pieces, p);
  }

  /** A round leads on from where the pieces so far ended. */
  lemma RoundLeadsOn(rule: (nat, Piece) -> bool, to: nat, pieces: seq<Piece>, result: seq<string>, token: string, gap: string, next: nat)
    requires CutSoFar(rule, to, pieces, result) && CutsOff(rule, to, token, gap, next)
    ensures CutSoFar(rule, next, pieces + PiecesOf(token, gap), if token == "" then result else result + [token])
  {
    var first, tokens := pieces, result;
    if token != "" {
      OnePieceOn(rule, to, pieces, result, Token(token));
      first, tokens := pieces + [Token(token)], result + [token];
    }
    if gap != "" {
      OnePieceOn(rule, to + |token|, first, tokens, Gap(gap));
      assert tokens + [] == tokens;
    }
    assert pieces + PiecesOf(token, gap) == if gap == "" then first else first + [Gap(gap)];
  }

  lemma OnlyTokens(text: string, separators: set<string>, pieces: seq<Piece>)
    requires Cuts(text, separators, pieces)
    ensures forall other :: Cuts(text, separators, other) ==> TokensOf(other) == TokensOf(pieces)
  {
    forall other | Cuts(text, separators, other) ensures TokensOf(other) == TokensOf(pieces) {
      CutIsUnique(text, separators, pieces, other);
    }
  }

  /** `tokenize`, on exactly the inputs it returns from; `list` is the order in which the set is
      visited, and the contract does not depend on it. */
  method Tokenize(original: string, list: seq<string>, ghost separators: set<string>) returns (result: seq<string>, ghost pieces: seq<Piece>)
    requires Lists(list, separators) && Terminates(original, list)
    ensures Cuts(original, NonEmpty(separators), pieces) && result == TokensOf(pieces)
    ensures forall other :: Cuts(original, NonEmpty(separators), other) ==> result == TokensOf(other)
  {
    result := [];
    pieces := [];
    var currentOffset := 0;
    ghost var rule := Rule(original, NonEmpty(separators));
    TerminationExact(original, list);
    while currentOffset < |original|
      invariant currentOffset <= |original| && Safe(original, list, currentOffset)
      invariant CutSoFar(rule, currentOffset, pieces, result)
      decreases |original| - currentOffset
    {
      ghost var gap;
      var token, next;
      token, next, gap := Round(original, list, separators, currentOffset);
      RoundLeadsOn(rule, currentOffset, pieces, result, token, gap, next);
      if token != "" {
        result := result + [token];
      }
      pieces := pieces + PiecesOf(token, gap);
      currentOffset := next;
    }
    OnlyTokens(original, NonEmpty(separators), pieces);
  }

  lemma {:induction false} TokensOfAppend(pieces: seq<Piece>, p: Piece)
    ensures TokensOf(pieces + [p]) == TokensOf(pieces) + if p.Token? then [p.s] else []
  {
    if pieces == [] {
      assert pieces + [p] == [p];
    } else {
      var longer := pieces + [p];
      assert longer[0] == pieces[0] && longer[1..] == pieces[1..] + [p];
      TokensOfAppend(pieces[1..], p);
      Regroup(if pieces[0].Token? then [pieces[0].s] else [], TokensOf(pieces[1..]), if p.Token? then [p.s] else []);
    }
  }
}
