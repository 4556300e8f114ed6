/** Bradley-Terry strengths by minorisation-maximisation from a table of wins. */
module BradleyTerry {

  datatype Win = Win(winner: nat, loser: nat, count: nat)

  const ROUNDS: nat := 50

  ghost predicate InRange(wins: seq<Win>, n: nat) {
    forall k :: 0 <= k < |wins| ==> wins[k].winner < n && wins[k].loser < n
  }

  function Sum(s: seq<real>): real {
    if s == [] then 0.0 else Sum(s[..|s| - 1]) + s[|s| - 1]
  }

  // ---- Tables ----------------------------------------------------------------------------------

  function WinCount(wins: seq<Win>, i: nat): real {
    if wins == [] then 0.0
    else
      var w := wins[|wins| - 1];
      WinCount(wins[..|wins| - 1], i) + if w.winner == i then w.count as real else 0.0
  }

  // Games between `i` and `j`; a game of a player against itself is counted from both sides.
  function Compared(wins: seq<Win>, i: nat, j: nat): real {
    if wins == [] then 0.0
    else
      var w := wins[|wins| - 1];
      Compared(wins[..|wins| - 1], i, j)
      + (if w.winner == i && w.loser == j then w.count as real else 0.0)
      + (if w.loser == i && w.winner == j then w.count as real else 0.0)
  }

  ghost predicate Square(c: seq<seq<real>>, n: nat) {
    |c| == n && forall i :: 0 <= i < n ==> |c[i]| == n
  }

  ghost predicate Counts(wins: seq<Win>, n: nat, w: seq<real>) {
    |w| == n && forall i :: 0 <= i < n ==> w[i] == WinCount(wins, i)
  }

  ghost predicate Comparisons(wins: seq<Win>, n: nat, c: seq<seq<real>>) {
    Square(c, n) && forall i, j :: 0 <= i < n && 0 <= j < n ==> c[i][j] == Compared(wins, i, j)
  }

  // `i` won a game.
  ghost predicate HasWin(wins: seq<Win>, i: nat) {
    exists k :: 0 <= k < |wins| && wins[k].winner == i && wins[k].count > 0
  }

  // `i` and `j` met.
  ghost predicate Met(wins: seq<Win>, i: nat, j: nat) {
    exists k :: 0 <= k < |wins| && wins[k].count > 0 && {wins[k].winner, wins[k].loser} == {i, j}
  }

  ghost predicate HasOpponent(wins: seq<Win>, n: nat, i: nat) {
    exists j: nat :: j < n && j != i && Met(wins, i, j)
  }

  lemma {:induction false} WinCountPositive(wins: seq<Win>, i: nat)
    ensures WinCount(wins, i) >= 0.0
    ensures WinCount(wins, i) > 0.0 <==> HasWin(wins, i)
  {
    if wins != [] {
      var rest, last := wins[..|wins| - 1], wins[|wins| - 1];
      WinCountPositive(rest, i);
      if HasWin(rest, i) {
        var k :| 0 <= k < |rest| && rest[k].winner == i && rest[k].count > 0;
        assert wins[k] == rest[k];
      }
      if HasWin(wins, i) && !(last.winner == i && last.count > 0) {
        var k :| 0 <= k < |wins| && wins[k].winner == i && wins[k].count > 0;
        assert rest[k] == wins[k];
      }
    }
  }

  lemma {:induction false} ComparedPositive(wins: seq<Win>, i: nat, j: nat)
    requires i != j
    ensures Compared(wins, i, j) >= 0.0
    ensures Compared(wins, i, j) > 0.0 <==> Met(wins, i, j)
  {
    if wins != [] {
      var rest, last := wins[..|wins| - 1], wins[|wins| - 1];
      ComparedPositive(rest, i, j);
      if Met(rest, i, j) {
        var k :| 0 <= k < |rest| && rest[k].count > 0 && {rest[k].winner, rest[k].loser} == {i, j};
        assert wins[k] == rest[k];
      }
      if Met(wins, i, j) {
        var k :| 0 <= k < |wins| && wins[k].count > 0 && {wins[k].winner, wins[k].loser} == {i, j};
        assert wins[k].winner in {i, j} && wins[k].loser in {i, j} && i in {wins[k].winner, wins[k].loser};
        assert j in {wins[k].winner, wins[k].loser};
        assert k < |rest| ==> rest[k] == wins[k];
      }
    }
  }

  // Whoever met somebody else has won a game or lost one to them.
  lemma MeetingsHaveWinners(wins: seq<Win>, i: nat, j: nat)
    requires Met(wins, i, j)
    ensures HasWin(wins, i) || HasWin(wins, j)
  {
    var k :| 0 <= k < |wins| && wins[k].count > 0 && {wins[k].winner, wins[k].loser} == {i, j};
    assert wins[k].winner in {i, j};
  }

  // ---- One round -------------------------------------------------------------------------------

  // Opponents among `c[i]` leave no division by zero.
  ghost predicate Divisible(c: seq<seq<real>>, theta: seq<real>, i: nat)
    requires Square(c, |theta|) && i < |theta|
  {
    forall j :: 0 <= j < |theta| && j != i && c[i][j] > 0.0 ==> theta[i] + theta[j] > 0.0
  }

  function Denominator(c: seq<seq<real>>, theta: seq<real>, i: nat, k: nat): real
    requires Square(c, |theta|) && i < |theta| && k <= |theta| && Divisible(c, theta, i)
  {
    if k == 0 then 0.0
    else
      var j := k - 1;
      Denominator(c, theta, i, j) + if j != i && c[i][j] > 0.0 then c[i][j] / (theta[i] + theta[j]) else 0.0
  }

  function Updated(w: seq<real>, c: seq<seq<real>>, theta: seq<real>, i: nat): real
    requires |w| == |theta| && Square(c, |theta|) && i < |theta| && Divisible(c, theta, i)
  {
    var denom := Denominator(c, theta, i, |theta|);
    if denom > 0.0 then w[i] / denom else theta[i]
  }

  // Every strength a round can divide by.
  ghost predicate Sound(c: seq<seq<real>>, theta: seq<real>) {
    Square(c, |theta|) && forall i :: 0 <= i < |theta| ==> Divisible(c, theta, i)
  }

  ghost predicate Rounded(w: seq<real>, c: seq<seq<real>>, theta: seq<real>, next: seq<real>)
    requires |w| == |theta| && Sound(c, theta)
  {
    |next| == |theta| && forall i :: 0 <= i < |theta| ==> next[i] == Updated(w, c, theta, i)
  }

  function Round(w: seq<real>, c: seq<seq<real>>, theta: seq<real>): (next: seq<real>)
    requires |w| == |theta| && Sound(c, theta)
    ensures Rounded(w, c, theta, next)
  {
    seq(|theta|, i requires 0 <= i < |theta| => Updated(w, c, theta, i))
  }

  // What every round keeps: winners are positive, losers are zero after the first round, and a
  // player without opponents stays at 1.
  ghost predicate Strengths(wins: seq<Win>, n: nat, theta: seq<real>, rounds: nat) {
    && |theta| == n
    && forall i :: 0 <= i < n ==>
         && theta[i] >= 0.0
         && (!HasOpponent(wins, n, i) ==> theta[i] == 1.0)
         && (HasWin(wins, i) ==> theta[i] > 0.0)
         && (rounds > 0 && HasOpponent(wins, n, i) && !HasWin(wins, i) ==> theta[i] == 0.0)
  }

  lemma StrengthsSound(wins: seq<Win>, n: nat, c: seq<seq<real>>, theta: seq<real>, rounds: nat)
    requires Comparisons(wins, n, c) && Strengths(wins, n, theta, rounds)
    ensures Sound(c, theta)
  {
    forall i, j | 0 <= i < n && 0 <= j < n && j != i && c[i][j] > 0.0 ensures theta[i] + theta[j] > 0.0 {
      ComparedPositive(wins, i, j);
      MeetingsHaveWinners(wins, i, j);
    }
  }

  lemma {:induction false} DenominatorPositive(wins: seq<Win>, n: nat, c: seq<seq<real>>, theta: seq<real>, i: nat, k: nat)
    requires Comparisons(wins, n, c) && |theta| == n && i < n && k <= n && Divisible(c, theta, i)
    ensures Denominator(c, theta, i, k) >= 0.0
    ensures Denominator(c, theta, i, k) > 0.0 <==> exists j: nat :: j < k && j != i && Met(wins, i, j)
  {
    if k > 0 {
      var j := k - 1;
      DenominatorPositive(wins, n, c, theta, i, j);
      if j != i {
        ComparedPositive(wins, i, j);
        if c[i][j] > 0.0 {
          QuotientPositive(c[i][j], theta[i] + theta[j]);
        }
      }
    }
  }

  lemma QuotientPositive(a: real, b: real)
    requires b > 0.0
    ensures a > 0.0 ==> a / b > 0.0
    ensures a >= 0.0 ==> a / b >= 0.0
    ensures a == 0.0 ==> a / b == 0.0
  {
  }

  lemma RoundKeepsStrengths(wins: seq<Win>, n: nat, w: seq<real>, c: seq<seq<real>>, theta: seq<real>, next: seq<real>,
                            rounds: nat)
    requires Counts(wins, n, w) && Comparisons(wins, n, c) && Strengths(wins, n, theta, rounds)
    requires Sound(c, theta) && Rounded(w, c, theta, next)
    ensures Strengths(wins, n, next, rounds + 1)
  {
    hide HasWin, Met, Denominator;
    forall i | 0 <= i < n
      ensures next[i] >= 0.0
      ensures !HasOpponent(wins, n, i) ==> next[i] == 1.0
      ensures HasWin(wins, i) ==> next[i] > 0.0
      ensures HasOpponent(wins, n, i) && !HasWin(wins, i) ==> next[i] == 0.0
    {
      DenominatorPositive(wins, n, c, theta, i, n);
      WinCountPositive(wins, i);
      var denom := Denominator(c, theta, i, n);
      if denom > 0.0 {
        QuotientPositive(w[i], denom);
      }
    }
  }

  // ---- Normalisation ---------------------------------------------------------------------------

  // `a * f`, kept folded where only its algebra is needed.
  function Times(a: real, f: real): real {
    a * f
  }

  lemma TimesSum(a: real, b: real, f: real)
    ensures Times(a + b, f) == Times(a, f) + Times(b, f)
    ensures Times(0.0, f) == 0.0
  {
  }

  function Scaled(s: seq<real>, scale: real): (r: seq<real>)
    ensures |r| == |s|
  {
    seq(|s|, i requires 0 <= i < |s| => Times(s[i], scale))
  }

  lemma {:induction false} SumScaled(s: seq<real>, scale: real)
    ensures Sum(Scaled(s, scale)) == Times(Sum(s), scale)
  {
    hide Times, Scaled;
    if s == [] {
      TimesSum(0.0, 0.0, scale);
      NoneScaled(s, scale);
    } else {
      var m := |s| - 1;
      SumScaled(s[..m], scale);
      ScaledLast(s, scale);
      TimesSum(Sum(s[..m]), s[m], scale);
    }
  }

  lemma NoneScaled(s: seq<real>, scale: real)
    requires s == []
    ensures Scaled(s, scale) == []
  {
  }

  lemma ScaledLast(s: seq<real>, scale: real)
    requires s != []
    ensures var m, r := |s| - 1, Scaled(s, scale);
      r[..m] == Scaled(s[..m], scale) && r[m] == Times(s[m], scale)
  {
    hide Times;
    var m := |s| - 1;
    assert forall i :: 0 <= i < m ==> Scaled(s, scale)[..m][i] == Scaled(s[..m], scale)[i];
  }

  lemma {:induction false} SumPositive(s: seq<real>)
    requires forall i :: 0 <= i < |s| ==> s[i] >= 0.0
    ensures Sum(s) >= 0.0
    ensures (exists i :: 0 <= i < |s| && s[i] > 0.0) ==> Sum(s) > 0.0
  {
    if s != [] {
      var rest := s[..|s| - 1];
      SumPositive(rest);
      if exists i :: 0 <= i < |s| && s[i] > 0.0 {
        var i :| 0 <= i < |s| && s[i] > 0.0;
        assert i < |rest| ==> rest[i] > 0.0;
      }
    }
  }

  // Somebody is always left with a positive strength.
  lemma SomebodyPositive(wins: seq<Win>, n: nat, theta: seq<real>, rounds: nat)
    requires n > 0 && InRange(wins, n) && Strengths(wins, n, theta, rounds)
    ensures Sum(theta) > 0.0
  {
    SumPositive(theta);
    if HasOpponent(wins, n, 0) {
      var j: nat :| j < n && j != 0 && Met(wins, 0, j);
      MeetingsHaveWinners(wins, 0, j);
      assert theta[0] > 0.0 || theta[j] > 0.0;
    } else {
      assert theta[0] > 0.0;
    }
  }

  // The strengths as reported: not negative, positive exactly for the players that won a game or
  // met nobody else, and averaging 1.
  ghost predicate Report(wins: seq<Win>, n: nat, r: seq<real>) {
    && |r| == n
    && (forall i :: 0 <= i < n ==> r[i] >= 0.0)
    && (forall i :: 0 <= i < n ==> (r[i] > 0.0 <==> HasWin(wins, i) || !HasOpponent(wins, n, i)))
    && Sum(r) == n as real
  }

  lemma NormalisedReports(wins: seq<Win>, n: nat, theta: seq<real>, rounds: nat)
    requires n > 0 && InRange(wins, n) && Strengths(wins, n, theta, rounds) && rounds > 0
    ensures Sum(theta) > 0.0 && Report(wins, n, Scaled(theta, n as real / Sum(theta)))
  {
    hide HasWin, HasOpponent, Sum, Scaled;
    SomebodyPositive(wins, n, theta, rounds);
    var scale := ScaleFactor(n, Sum(theta));
    SumScaled(theta, scale);
    SignsKept(theta, scale);
    var r := Scaled(theta, scale);
    forall i | 0 <= i < n ensures r[i] >= 0.0 && (r[i] > 0.0 <==> HasWin(wins, i) || !HasOpponent(wins, n, i)) {
      assert theta[i] >= 0.0;
    }
  }

  lemma ScaleFactor(n: nat, total: real) returns (scale: real)
    requires n > 0 && total > 0.0
    ensures scale == n as real / total && scale > 0.0 && total * scale == n as real
  {
    scale := n as real / total;
  }

  lemma SignsKept(s: seq<real>, scale: real)
    requires scale > 0.0 && forall i :: 0 <= i < |s| ==> s[i] >= 0.0
    ensures forall i :: 0 <= i < |s| ==> Scaled(s, scale)[i] >= 0.0 && (Scaled(s, scale)[i] > 0.0 <==> s[i] > 0.0)
  {
    forall i | 0 <= i < |s| ensures s[i] * scale >= 0.0 && (s[i] * scale > 0.0 <==> s[i] > 0.0) {
      ProductSign(s[i], scale);
    }
  }

  lemma ProductSign(a: real, b: real)
    requires a >= 0.0 && b > 0.0
    ensures a * b >= 0.0 && (a * b > 0.0 <==> a > 0.0)
  {
  }

  // ---- The procedure ---------------------------------------------------------------------------

  function WinTable(wins: seq<Win>, n: nat): (w: seq<real>)
    ensures Counts(wins, n, w)
  {
    seq(n, i requires 0 <= i < n => WinCount(wins, i))
  }

  function CompareTable(wins: seq<Win>, n: nat): (c: seq<seq<real>>)
    ensures Comparisons(wins, n, c)
  {
    seq(n, i requires 0 <= i < n => seq(n, j requires 0 <= j < n => Compared(wins, i, j)))
  }

  // The strengths after `rounds` rounds.
  ghost function Rounds(wins: seq<Win>, n: nat, rounds: nat): (theta: seq<real>)
    ensures Strengths(wins, n, theta, rounds)
  {
    if rounds == 0 then
      InitialStrengths(wins, n);
      seq(n, _ => 1.0)
    else
      var w, c := WinTable(wins, n), CompareTable(wins, n);
      var theta := Rounds(wins, n, rounds - 1);
      StrengthsSound(wins, n, c, theta, rounds - 1);
      RoundKeepsStrengths(wins, n, w, c, theta, Round(w, c, theta), rounds - 1);
      Round(w, c, theta)
  }

  // The strengths after `rounds` rounds, normalised to average 1.
  ghost function Normalised(wins: seq<Win>, n: nat, rounds: nat): seq<real> {
    var theta := Rounds(wins, n, rounds);
    if Sum(theta) > 0.0 then Scaled(theta, n as real / Sum(theta)) else theta
  }

  lemma InitialStrengths(wins: seq<Win>, n: nat)
    ensures Strengths(wins, n, seq(n, _ => 1.0), 0)
  {
  }

  method CountWins(wins: seq<Win>, n: nat) returns (w: seq<real>, c: seq<seq<real>>)
    requires InRange(wins, n)
    ensures w == WinTable(wins, n) && c == CompareTable(wins, n)
  {
    hide CompareTable, WinTable, Counts, Comparisons, AddGames;
    NoGames(n);
    w := seq(n, _ => 0.0);
    for k := 0 to |wins|
      invariant |w| == n && Counts(wins[..k], n, w)
    {
      OneMoreWin(wins, k, n, w);
      w := w[wins[k].winner := w[wins[k].winner] + wins[k].count as real];
    }
    c := seq(n, _ => seq(n, _ => 0.0));
    for k := 0 to |wins|
      invariant Square(c, n) && Comparisons(wins[..k], n, c)
    {
      OneMoreGame(wins, k, n, c);
      c := AddGames(c, n, wins[k].winner, wins[k].loser, wins[k].count as real);
      c := AddGames(c, n, wins[k].loser, wins[k].winner, wins[k].count as real);
    }
    assert wins[..|wins|] == wins;
    SameTables(wins, n, w, c);
  }

  lemma NoGames(n: nat)
    ensures Counts([], n, seq(n, _ => 0.0)) && Comparisons([], n, seq(n, _ => seq(n, _ => 0.0)))
  {
  }

  lemma OneMoreWin(wins: seq<Win>, k: nat, n: nat, w: seq<real>)
    requires InRange(wins, n) && k < |wins| && |w| == n && Counts(wins[..k], n, w)
    ensures Counts(wins[..k + 1], n, w[wins[k].winner := w[wins[k].winner] + wins[k].count as real])
  {
    assert wins[..k + 1][..k] == wins[..k];
  }

  lemma OneMoreGame(wins: seq<Win>, k: nat, n: nat, c: seq<seq<real>>)
    requires InRange(wins, n) && k < |wins| && Square(c, n) && Comparisons(wins[..k], n, c)
    ensures var c' := AddGames(c, n, wins[k].winner, wins[k].loser, wins[k].count as real);
      Comparisons(wins[..k + 1], n, AddGames(c', n, wins[k].loser, wins[k].winner, wins[k].count as real))
  {
    hide AddGames;
    assert wins[..k + 1][..k] == wins[..k];
  }

  lemma SameTables(wins: seq<Win>, n: nat, w: seq<real>, c: seq<seq<real>>)
    requires Counts(wins, n, w) && Comparisons(wins, n, c)
    ensures w == WinTable(wins, n) && c == CompareTable(wins, n)
  {
    var c' := CompareTable(wins, n);
    forall i | 0 <= i < n ensures c[i] == c'[i] {
      assert forall j :: 0 <= j < n ==> c[i][j] == c'[i][j];
    }
  }

  function AddGames(c: seq<seq<real>>, n: nat, i: nat, j: nat, games: real): (r: seq<seq<real>>)
    requires Square(c, n) && i < n && j < n
    ensures Square(r, n)
    ensures forall a, b :: 0 <= a < n && 0 <= b < n ==> r[a][b] == c[a][b] + if a == i && b == j then games else 0.0
  {
    c[i := c[i][j := c[i][j] + games]]
  }

  method NextStrengths(w: seq<real>, c: seq<seq<real>>, theta: seq<real>) returns (next: seq<real>)
    requires |w| == |theta| && Sound(c, theta)
    ensures next == Round(w, c, theta)
  {
    hide Updated;
    next := seq(|theta|, _ => 0.0);
    for i := 0 to |theta|
      invariant |next| == |theta|
      invariant forall m :: 0 <= m < i ==> next[m] == Updated(w, c, theta, m)
    {
      next := next[i := Updated(w, c, theta, i)];
    }
    assert next == Round(w, c, theta);
  }

  method Strengthen(wins: seq<Win>, n: nat) returns (theta: seq<real>)
    requires InRange(wins, n)
    ensures Report(wins, n, theta)
    ensures theta == Normalised(wins, n, ROUNDS)
  {
    hide HasWin, HasOpponent;
    if n == 0 {
      theta := [];
      return;
    }
    var w, c := CountWins(wins, n);
    theta := seq(n, _ => 1.0);
    InitialStrengths(wins, n);
    for round := 0 to ROUNDS
      invariant Strengths(wins, n, theta, round)
      invariant theta == Rounds(wins, n, round)
    {
      StrengthsSound(wins, n, c, theta, round);
      var next := NextStrengths(w, c, theta);
      RoundKeepsStrengths(wins, n, w, c, theta, next, round);
      theta := next;
    }
    NormalisedReports(wins, n, theta, ROUNDS);
    var total := Sum(theta);
    if total > 0.0 {
      theta := Scaled(theta, n as real / total);
    }
  }

  // ---- Only proportions matter -----------------------------------------------------------------

  function More(w: Win, f: nat): Win {
    Win(w.winner, w.loser, w.count * f)
  }

  function Multiplied(wins: seq<Win>, f: nat): seq<Win> {
    if wins == [] then [] else Multiplied(wins[..|wins| - 1], f) + [More(wins[|wins| - 1], f)]
  }

  lemma MoreGames(w: Win, f: nat)
    ensures More(w, f).winner == w.winner && More(w, f).loser == w.loser
    ensures More(w, f).count as real == Times(w.count as real, f as real)
  {
  }

  lemma MultipliedLast(wins: seq<Win>, f: nat)
    requires wins != []
    ensures var m := Multiplied(wins, f);
      m != [] && m[..|m| - 1] == Multiplied(wins[..|wins| - 1], f) && m[|m| - 1] == More(wins[|wins| - 1], f)
  {
  }

  lemma NoneMultiplied(f: nat)
    ensures Multiplied([], f) == []
  {
  }

  lemma {:induction false} WinCountMultiplied(wins: seq<Win>, f: nat, i: nat)
    ensures WinCount(Multiplied(wins, f), i) == Times(WinCount(wins, i), f as real)
  {
    hide Times, More, Multiplied;
    if wins == [] {
      NoneMultiplied(f);
      TimesSum(0.0, 0.0, f as real);
    } else {
      var rest, last := wins[..|wins| - 1], wins[|wins| - 1];
      var games := if last.winner == i then last.count as real else 0.0;
      WinCountMultiplied(rest, f, i);
      MoreGames(last, f);
      MultipliedLast(wins, f);
      TimesSum(WinCount(rest, i), games, f as real);
    }
  }

  lemma {:induction false} ComparedMultiplied(wins: seq<Win>, f: nat, i: nat, j: nat)
    ensures Compared(Multiplied(wins, f), i, j) == Times(Compared(wins, i, j), f as real)
  {
    hide Times, More, Multiplied;
    if wins == [] {
      NoneMultiplied(f);
      TimesSum(0.0, 0.0, f as real);
    } else {
      var rest, last := wins[..|wins| - 1], wins[|wins| - 1];
      var won := if last.winner == i && last.loser == j then last.count as real else 0.0;
      var lost := if last.loser == i && last.winner == j then last.count as real else 0.0;
      ComparedMultiplied(rest, f, i, j);
      MoreGames(last, f);
      MultipliedLast(wins, f);
      TimesSum(Compared(rest, i, j), won, f as real);
      TimesSum(Compared(rest, i, j) + won, lost, f as real);
    }
  }

  // `c'` is `c` with every entry multiplied by `f`.
  ghost predicate Proportional(c: seq<seq<real>>, c': seq<seq<real>>, n: nat, f: real) {
    Square(c, n) && Square(c', n) && forall i, j :: 0 <= i < n && 0 <= j < n ==> c'[i][j] == Times(c[i][j], f)
  }

  lemma TimesQuotient(a: real, f: real, b: real)
    requires b > 0.0
    ensures Times(a, f) / b == Times(a / b, f)
  {
  }

  lemma TimesSign(a: real, f: real)
    requires f > 0.0
    ensures Times(a, f) > 0.0 <==> a > 0.0
  {
  }

  lemma RatioCancels(a: real, b: real, f: real)
    requires b > 0.0 && f > 0.0
    ensures Times(b, f) > 0.0 && Times(a, f) / Times(b, f) == a / b
  {
    var q := a / b;
    assert q * b == a;
    assert q * (b * f) == a * f;
  }

  lemma {:induction false} DenominatorScales(c: seq<seq<real>>, c': seq<seq<real>>, theta: seq<real>, i: nat, k: nat, f: real)
    requires Proportional(c, c', |theta|, f) && f > 0.0 && i < |theta| && k <= |theta|
    requires Divisible(c, theta, i) && Divisible(c', theta, i)
    ensures Denominator(c', theta, i, k) == Times(Denominator(c, theta, i, k), f)
  {
    hide Times;
    if k == 0 {
      TimesSum(0.0, 0.0, f);
    } else {
      var j := k - 1;
      DenominatorScales(c, c', theta, i, j, f);
      TimesSign(c[i][j], f);
      if j != i && c[i][j] > 0.0 {
        var sum := theta[i] + theta[j];
        TimesQuotient(c[i][j], f, sum);
        TimesSum(Denominator(c, theta, i, j), c[i][j] / sum, f);
      }
    }
  }

  lemma UpdateScales(w: seq<real>, w': seq<real>, c: seq<seq<real>>, c': seq<seq<real>>, theta: seq<real>, i: nat, f: real)
    requires |w| == |w'| == |theta| && Proportional(c, c', |theta|, f) && f > 0.0 && i < |theta|
    requires Divisible(c, theta, i) && Divisible(c', theta, i) && w'[i] == Times(w[i], f)
    ensures Updated(w', c', theta, i) == Updated(w, c, theta, i)
  {
    hide Times, Denominator;
    DenominatorScales(c, c', theta, i, |theta|, f);
    var denom := Denominator(c, theta, i, |theta|);
    TimesSign(denom, f);
    if denom > 0.0 {
      RatioCancels(w[i], denom, f);
    }
  }

  lemma RoundScales(w: seq<real>, w': seq<real>, c: seq<seq<real>>, c': seq<seq<real>>, theta: seq<real>, f: real)
    requires |w| == |w'| == |theta| && Proportional(c, c', |theta|, f) && f > 0.0
    requires Sound(c, theta) && Sound(c', theta) && forall i :: 0 <= i < |w| ==> w'[i] == Times(w[i], f)
    ensures Round(w', c', theta) == Round(w, c, theta)
  {
    hide Updated, Times, Proportional, Divisible;
    forall i | 0 <= i < |theta| ensures Updated(w', c', theta, i) == Updated(w, c, theta, i) {
      UpdateScales(w, w', c, c', theta, i, f);
    }
  }

  lemma TablesScale(wins: seq<Win>, n: nat, f: nat)
    ensures Proportional(CompareTable(wins, n), CompareTable(Multiplied(wins, f), n), n, f as real)
    ensures forall i :: 0 <= i < n ==> WinTable(Multiplied(wins, f), n)[i] == Times(WinTable(wins, n)[i], f as real)
  {
    hide Times, Compared, WinCount;
    forall i, j | 0 <= i < n && 0 <= j < n
      ensures CompareTable(Multiplied(wins, f), n)[i][j] == Times(CompareTable(wins, n)[i][j], f as real)
    {
      ComparedMultiplied(wins, f, i, j);
    }
    forall i | 0 <= i < n ensures WinTable(Multiplied(wins, f), n)[i] == Times(WinTable(wins, n)[i], f as real) {
      WinCountMultiplied(wins, f, i);
    }
  }

  // Multiplying every count by the same positive number changes no strength in any round.
  lemma {:induction false} RoundsKeepProportions(wins: seq<Win>, n: nat, f: nat, rounds: nat)
    requires f > 0
    ensures Rounds(Multiplied(wins, f), n, rounds) == Rounds(wins, n, rounds)
  {
    hide Round, Sound, Strengths, CompareTable, WinTable, Multiplied, Times;
    if rounds > 0 {
      RoundsKeepProportions(wins, n, f, rounds - 1);
      var theta := Rounds(wins, n, rounds - 1);
      var many := Multiplied(wins, f);
      StrengthsSound(wins, n, CompareTable(wins, n), theta, rounds - 1);
      StrengthsSound(many, n, CompareTable(many, n), theta, rounds - 1);
      TablesScale(wins, n, f);
      LengthKept(wins, n, theta, rounds - 1);
      RoundScales(WinTable(wins, n), WinTable(many, n), CompareTable(wins, n), CompareTable(many, n), theta, f as real);
    }
  }

  lemma LengthKept(wins: seq<Win>, n: nat, theta: seq<real>, rounds: nat)
    requires Strengths(wins, n, theta, rounds)
    ensures |theta| == n
  {
  }

  lemma StrengthsKeepProportions(wins: seq<Win>, n: nat, f: nat)
    requires f > 0
    ensures Normalised(Multiplied(wins, f), n, ROUNDS) == Normalised(wins, n, ROUNDS)
  {
    RoundsKeepProportions(wins, n, f, ROUNDS);
  }

  // ---- What a round is looking for -------------------------------------------------------------

  // Games that `i` won against `j`.
  function WinsOver(wins: seq<Win>, i: nat, j: nat): real {
    if wins == [] then 0.0
    else
      var w := wins[|wins| - 1];
      WinsOver(wins[..|wins| - 1], i, j) + if w.winner == i && w.loser == j then w.count as real else 0.0
  }

  function WinsOverFirst(wins: seq<Win>, i: nat, k: nat): real {
    if k == 0 then 0.0 else WinsOverFirst(wins, i, k - 1) + WinsOver(wins, i, k - 1)
  }

  // The games of two players are those that either won, and a player's wins are those over anybody.
  lemma {:induction false} GamesAddUp(wins: seq<Win>, i: nat, j: nat)
    ensures Compared(wins, i, j) == WinsOver(wins, i, j) + WinsOver(wins, j, i)
    ensures Compared(wins, i, j) == Compared(wins, j, i)
  {
    if wins != [] {
      GamesAddUp(wins[..|wins| - 1], i, j);
    }
  }

  lemma {:induction false} WinsAddUp(wins: seq<Win>, n: nat, i: nat)
    requires InRange(wins, n)
    ensures WinCount(wins, i) == WinsOverFirst(wins, i, n)
  {
    if wins == [] {
      NoWins(i, n);
    } else {
      WinsAddUp(wins[..|wins| - 1], n, i);
      OneMoreWinOver(wins, i, n);
    }
  }

  lemma {:induction false} NoWins(i: nat, k: nat)
    ensures WinsOverFirst([], i, k) == 0.0
  {
    if k > 0 {
      NoWins(i, k - 1);
    }
  }

  lemma {:induction false} OneMoreWinOver(wins: seq<Win>, i: nat, k: nat)
    requires wins != []
    ensures var last := wins[|wins| - 1];
      WinsOverFirst(wins, i, k) == WinsOverFirst(wins[..|wins| - 1], i, k) +
        if last.winner == i && last.loser < k then last.count as real else 0.0
  {
    if k > 0 {
      OneMoreWinOver(wins, i, k - 1);
    }
  }

  // The chance of `a` against `b`.
  function Chance(a: real, b: real): real
    requires a + b > 0.0
  {
    a / (a + b)
  }

  // Wins of `i` against the first `k` players that the strengths let one expect.
  ghost function Expected(wins: seq<Win>, theta: seq<real>, i: nat, k: nat): real
    requires i < |theta| && k <= |theta|
  {
    if k == 0 then 0.0
    else
      var j := k - 1;
      var games := WinsOver(wins, i, j) + WinsOver(wins, j, i);
      Expected(wins, theta, i, j)
      + if j != i && theta[i] + theta[j] > 0.0 then games * Chance(theta[i], theta[j]) else 0.0
  }

  lemma ChanceOf(games: real, a: real, b: real)
    requires a + b > 0.0
    ensures games * Chance(a, b) == a * (games / (a + b))
  {
    var s := a + b;
    assert games * (a / s) == (games * a) / s == a * (games / s);
  }

  lemma ZeroProduct(x: real)
    ensures x * 0.0 == 0.0 * x == 0.0
  {
  }

  lemma {:induction false} ExpectedIs(wins: seq<Win>, n: nat, c: seq<seq<real>>, theta: seq<real>, i: nat, k: nat)
    requires Comparisons(wins, n, c) && |theta| == n && i < n && k <= n && Divisible(c, theta, i)
    ensures Expected(wins, theta, i, k) == Times(theta[i], Denominator(c, theta, i, k))
  {
    hide Chance, Times, Compared, WinsOver;
    if k == 0 {
      TimesNothing(theta[i]);
    } else {
      var j := k - 1;
      ExpectedIs(wins, n, c, theta, i, j);
      if j != i {
        GamesAddUp(wins, i, j);
        ComparedPositive(wins, i, j);
        var games, before := c[i][j], Denominator(c, theta, i, j);
        ExpectedStep(games, theta[i], theta[j], before);
        assert Denominator(c, theta, i, k) == before + if games > 0.0 then games / (theta[i] + theta[j]) else 0.0;
        hide Denominator;
        assert games == WinsOver(wins, i, j) + WinsOver(wins, j, i);
      }
    }
  }

  lemma TimesNothing(x: real)
    ensures Times(x, 0.0) == 0.0
  {
  }

  lemma ExpectedStep(games: real, a: real, b: real, before: real)
    requires games >= 0.0 && (games > 0.0 ==> a + b > 0.0)
    ensures Times(a, before) + (if a + b > 0.0 then games * Chance(a, b) else 0.0) ==
            Times(a, before + if games > 0.0 then games / (a + b) else 0.0)
  {
    hide Chance;
    if a + b > 0.0 {
      ChanceOf(games, a, b);
      if games == 0.0 {
        ZeroProduct(Chance(a, b));
      }
    }
  }

  lemma QuotientIs(w: real, d: real, x: real)
    requires d > 0.0
    ensures w / d == x <==> w == Times(x, d)
  {
    assert (w / d) * d == w;
    if w == x * d {
      assert w / d == x;
    }
  }

  // A round changes nothing exactly when everyone who met somebody has won as often as their
  // strength against those they met lets one expect.
  lemma BalancedExactly(wins: seq<Win>, n: nat, theta: seq<real>, rounds: nat)
    requires InRange(wins, n) && Strengths(wins, n, theta, rounds)
    requires Sound(CompareTable(wins, n), theta)
    ensures Round(WinTable(wins, n), CompareTable(wins, n), theta) == theta <==>
            forall i :: 0 <= i < n && HasOpponent(wins, n, i) ==> WinsOverFirst(wins, i, n) == Expected(wins, theta, i, n)
  {
    hide HasOpponent, Expected, WinsOverFirst, Strengths, WinCount, Compared, Met, Times;
    var w, c := WinTable(wins, n), CompareTable(wins, n);
    assert |theta| == n && Comparisons(wins, n, c) by { TablesAre(wins, n, theta, rounds); }
    var next := Round(w, c, theta);
    forall i | 0 <= i < n
      ensures next[i] == theta[i] <==> (HasOpponent(wins, n, i) ==> WinsOverFirst(wins, i, n) == Expected(wins, theta, i, n))
    {
      WinsAddUp(wins, n, i);
      ExpectedIs(wins, n, c, theta, i, n);
      OpponentDivides(wins, n, c, theta, i);
      var d := Denominator(c, theta, i, n);
      if d > 0.0 {
        QuotientIs(w[i], d, theta[i]);
      }
    }
  }

  lemma TablesAre(wins: seq<Win>, n: nat, theta: seq<real>, rounds: nat)
    requires Strengths(wins, n, theta, rounds)
    ensures |theta| == n && Comparisons(wins, n, CompareTable(wins, n))
  {
  }

  lemma OpponentDivides(wins: seq<Win>, n: nat, c: seq<seq<real>>, theta: seq<real>, i: nat)
    requires Comparisons(wins, n, c) && |theta| == n && i < n && Divisible(c, theta, i)
    ensures Denominator(c, theta, i, n) > 0.0 <==> HasOpponent(wins, n, i)
  {
    DenominatorPositive(wins, n, c, theta, i, n);
  }
}
