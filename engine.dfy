/**
 * The cipher step shared by LC4 and LS47: one symbol is encrypted or
 * decrypted with the current key and marker, and then the key and the marker
 * move on (lc4.py:162-199, ls47.py:97-130). Both programs run the same
 * loop; they differ only in the grid size and in whether the marker follows
 * the tiles when a row or a column rotates.
 */
module Engine {
  import opened Grid

  /**
   * marker_mode 1 (lc4.py, the LC4 default): the marker moves with the tile
   * under it when that tile's row or column rotates. marker_mode 2 (the LS47
   * default, and all that ls47.py does): the marker stays where it is.
   */
  datatype MarkerMode = MarkerFollowsTile | MarkerStays

  datatype Direction = Encrypting | Decrypting

  function Reverse(dir: Direction): Direction {
    if dir == Encrypting then Decrypting else Encrypting
  }

  datatype Config = Config(size: Size, markerMode: MarkerMode)

  /** What the loop carries from one symbol to the next: key and marker position mp. */
  datatype State = State(key: string, marker: Pos)

  /** The key is a permutation of the alphabet and the marker is on the grid. */
  predicate Keyed(cfg: Config, st: State) {
    IsPermutation(st.key, Letters(cfg.size)) && InRange(cfg.size, st.marker)
  }

  /** The symbol written out for one input symbol, and the state after it. */
  datatype Emit = Emit(symbol: char, next: State)

  /**
   * mix = find_ix(find_at_pos(key, mp)): the alphabet position of the symbol
   * under the marker. It cannot fail, because that symbol is in the key.
   */
  function Mix(cfg: Config, st: State): (r: Pos)
    requires Keyed(cfg, st)
    ensures InRange(cfg.size, r)
  {
    KeyFacts(cfg.size, st.key);
    KeySymbol(cfg.size, st.key, FindAtPos(cfg.size, st.key, st.marker));
    FindIx(cfg.size, FindAtPos(cfg.size, st.key, st.marker)).value
  }

  /**
   * The second half of each iteration, first part: rotate the plaintext
   * symbol's row right by one, the marker following if so configured.
   */
  function RowTurn(cfg: Config, st: State, row: nat): (r: State)
    requires Keyed(cfg, st) && row < cfg.size
    ensures Keyed(cfg, r)
  {
    var size := cfg.size;
    KeyFacts(size, st.key);
    RotateRightMultiset(size, st.key, row, 1);
    var key := RotateRight(size, st.key, row, 1);
    PermutationKept(key, st.key, Letters(size));
    State(key, if cfg.markerMode == MarkerFollowsTile then RotateMarkerRight(size, st.marker, row, 1) else st.marker)
  }

  /**
   * The second part: find the ciphertext symbol c again and rotate its
   * column down by one (the marker following if so configured), then
   * advance the marker by the alphabet position of c. The lookups cannot
   * fail, because the key stays a permutation.
   */
  function ColumnTurn(cfg: Config, st: State, c: char): (r: State)
    requires Keyed(cfg, st) && c in Letters(cfg.size)
    ensures Keyed(cfg, r)
  {
    var size := cfg.size;
    KeySymbol(size, st.key, c);
    var cp := FindPos(size, st.key, c).value;
    RotateDownMultiset(size, st.key, cp.col, 1);
    var key := RotateDown(size, st.key, cp.col, 1);
    PermutationKept(key, st.key, Letters(size));
    var mp := if cfg.markerMode == MarkerFollowsTile then RotateMarkerDown(size, st.marker, cp.col, 1) else st.marker;
    State(key, AddPos(size, mp, FindIx(size, c).value))
  }

  /** ColumnTurn in the source's two assignments: key first, then the marker. */
  lemma ColumnTurnParts(cfg: Config, st: State, c: char, cp: Pos, mp: Pos)
    requires Keyed(cfg, st) && c in Letters(cfg.size)
    requires FindPos(cfg.size, st.key, c) == Ok(cp)
    requires mp == if cfg.markerMode == MarkerFollowsTile then RotateMarkerDown(cfg.size, st.marker, cp.col, 1) else st.marker
    ensures |st.key| == cfg.size * cfg.size && InRange(cfg.size, cp) && FindIx(cfg.size, c).Ok?
    ensures ColumnTurn(cfg, st, c)
            == State(RotateDown(cfg.size, st.key, cp.col, 1), AddPos(cfg.size, mp, FindIx(cfg.size, c).value))
  {
    KeySymbol(cfg.size, st.key, c);
  }

  /** The whole second half, after the symbol c has been written out. */
  function Advance(cfg: Config, st: State, row: nat, c: char): (r: State)
    requires Keyed(cfg, st) && row < cfg.size && c in Letters(cfg.size)
    ensures Keyed(cfg, r)
  {
    ColumnTurn(cfg, RowTurn(cfg, st, row), c)
  }

  /**
   * The tiles one iteration works on: the plaintext symbol, the ciphertext
   * symbol, and the row pp[0] of the plaintext symbol.
   */
  datatype Pairing = Pairing(plain: char, cipher: char, row: nat)

  /**
   * The first half of each iteration. Encrypting p: pp = find_pos(key, p),
   * c = find_at_pos(key, add_pos(pp, mix)) (lc4.py:167-170, ls47.py:102-105).
   * Decrypting c: cp = find_pos(key, c), pp = sub_pos(cp, mix),
   * p = find_at_pos(key, pp) (lc4.py:187-190, ls47.py:120-123).
   * The only lookup that can fail is find_pos of the input symbol x.
   */
  function Pair(cfg: Config, dir: Direction, st: State, x: char): (r: Result<Pairing>)
    requires Keyed(cfg, st)
    ensures r.Ok? <==> x in Letters(cfg.size)
    ensures r.Err? ==> r.error == NotInKey(x)
    ensures r.Ok? ==> r.value.plain in Letters(cfg.size) && r.value.cipher in Letters(cfg.size)
                      && r.value.row < cfg.size
                      && x == (if dir == Encrypting then r.value.plain else r.value.cipher)
  {
    var size := cfg.size;
    KeySymbol(size, st.key, x);
    var q :- FindPos(size, st.key, x);
    var mix := Mix(cfg, st);
    match dir
    case Encrypting =>
      var c := FindAtPos(size, st.key, AddPos(size, q, mix));
      KeySymbol(size, st.key, c);
      Ok(Pairing(x, c, q.row))
    case Decrypting =>
      var pp := SubPos(size, q, mix);
      var p := FindAtPos(size, st.key, pp);
      KeySymbol(size, st.key, p);
      Ok(Pairing(p, x, pp.row))
  }

  /**
   * Encrypting p and decrypting the c it gives pair the same two tiles, and
   * decrypting c and encrypting the p it gives do too.
   */
  lemma PairRoundTrip(cfg: Config, st: State, l: Pairing)
    requires Keyed(cfg, st)
    ensures Pair(cfg, Encrypting, st, l.plain) == Ok(l) <==> Pair(cfg, Decrypting, st, l.cipher) == Ok(l)
  {
    var size := cfg.size;
    var mix := Mix(cfg, st);
    KeyFacts(size, st.key);
    if Pair(cfg, Encrypting, st, l.plain) == Ok(l) {
      KeySymbol(size, st.key, l.plain);
      var pp := FindPos(size, st.key, l.plain).value;
      var cp := AddPos(size, pp, mix);
      assert FindAtPos(size, st.key, cp) == l.cipher;
      assert FindPos(size, st.key, l.cipher) == Ok(cp) by { FindAtThenPos(size, st.key, cp); }
      assert SubPos(size, cp, mix) == pp by { SubAddPos(size, pp, mix); }
      assert FindAtPos(size, st.key, pp) == l.plain by { FindPosThenAt(size, st.key, l.plain); }
    }
    if Pair(cfg, Decrypting, st, l.cipher) == Ok(l) {
      KeySymbol(size, st.key, l.cipher);
      var cp := FindPos(size, st.key, l.cipher).value;
      var pp := SubPos(size, cp, mix);
      assert FindAtPos(size, st.key, pp) == l.plain;
      assert FindPos(size, st.key, l.plain) == Ok(pp) by { FindAtThenPos(size, st.key, pp); }
      assert AddPos(size, pp, mix) == cp by { AddSubPos(size, cp, mix); }
      assert FindAtPos(size, st.key, cp) == l.cipher by { FindPosThenAt(size, st.key, l.cipher); }
    }
  }

  /**
   * One iteration of the encrypt loop (lc4.py:166-178, ls47.py:101-111) or
   * of the decrypt loop (lc4.py:186-198, ls47.py:119-129) on input symbol x:
   * the symbol written out, and the state moved on by Advance.
   */
  function Step(cfg: Config, dir: Direction, st: State, x: char): (r: Result<Emit>)
    requires Keyed(cfg, st)
    ensures r.Ok? <==> x in Letters(cfg.size)
    ensures r.Err? ==> r.error == NotInKey(x)
    ensures r.Ok? ==> r.value.symbol in Letters(cfg.size) && Keyed(cfg, r.value.next)
  {
    var l :- Pair(cfg, dir, st, x);
    var out := if dir == Encrypting then l.cipher else l.plain;
    Ok(Emit(out, Advance(cfg, st, l.row, l.cipher)))
  }

  /**
   * One iteration of the encrypt loop as the source spells it: with
   * pp = find_pos(key, p), the ciphertext symbol is the one at pp + mix, and
   * the state moves on by rotating pp's row and that symbol's column.
   */
  lemma EncryptSymbol(cfg: Config, st: State, p: char, pp: Pos)
    requires Keyed(cfg, st) && FindPos(cfg.size, st.key, p) == Ok(pp)
    ensures |st.key| == cfg.size * cfg.size && InRange(cfg.size, pp)
    ensures var c := FindAtPos(cfg.size, st.key, AddPos(cfg.size, pp, Mix(cfg, st)));
            c in Letters(cfg.size) && Step(cfg, Encrypting, st, p) == Ok(Emit(c, Advance(cfg, st, pp.row, c)))
  {
    KeySymbol(cfg.size, st.key, p);
    var c := FindAtPos(cfg.size, st.key, AddPos(cfg.size, pp, Mix(cfg, st)));
    KeySymbol(cfg.size, st.key, c);
  }

  /**
   * One iteration of the decrypt loop as the source spells it: with
   * cp = find_pos(key, c) and pp = cp - mix, the plaintext symbol is the one
   * at pp, and the state moves on by rotating pp's row and c's column.
   */
  lemma DecryptSymbol(cfg: Config, st: State, c: char, cp: Pos)
    requires Keyed(cfg, st) && FindPos(cfg.size, st.key, c) == Ok(cp)
    ensures |st.key| == cfg.size * cfg.size && c in Letters(cfg.size)
    ensures var pp := SubPos(cfg.size, cp, Mix(cfg, st));
            Step(cfg, Decrypting, st, c) == Ok(Emit(FindAtPos(cfg.size, st.key, pp), Advance(cfg, st, pp.row, c)))
  {
    KeySymbol(cfg.size, st.key, c);
    var pp := SubPos(cfg.size, cp, Mix(cfg, st));
    KeySymbol(cfg.size, st.key, FindAtPos(cfg.size, st.key, pp));
  }

  /**
   * Decrypting the symbol that encrypting p produced gives p back and leaves
   * the same key and marker: both directions rotate the same row and column.
   */
  lemma StepRoundTrip(cfg: Config, st: State, p: char)
    requires Keyed(cfg, st) && p in Letters(cfg.size)
    ensures Step(cfg, Encrypting, st, p).Ok?
    ensures var e := Step(cfg, Encrypting, st, p).value;
            Step(cfg, Decrypting, st, e.symbol) == Ok(Emit(p, e.next))
  {
    var l := Pair(cfg, Encrypting, st, p).value;
    assert l.plain == p;
    PairRoundTrip(cfg, st, l);
    var next := Advance(cfg, st, l.row, l.cipher);
    assert Step(cfg, Encrypting, st, p) == Ok(Emit(l.cipher, next));
    assert Step(cfg, Decrypting, st, l.cipher) == Ok(Emit(p, next));
  }

  /** Encrypting what decrypting c produced gives c back, with the same state. */
  lemma StepRoundTripBack(cfg: Config, st: State, c: char)
    requires Keyed(cfg, st) && c in Letters(cfg.size)
    ensures Step(cfg, Decrypting, st, c).Ok?
    ensures var d := Step(cfg, Decrypting, st, c).value;
            Step(cfg, Encrypting, st, d.symbol) == Ok(Emit(c, d.next))
  {
    var l := Pair(cfg, Decrypting, st, c).value;
    assert l.cipher == c;
    PairRoundTrip(cfg, st, l);
    var next := Advance(cfg, st, l.row, c);
    assert Step(cfg, Decrypting, st, c) == Ok(Emit(l.plain, next));
    assert Step(cfg, Encrypting, st, l.plain) == Ok(Emit(c, next));
  }

  // ---------------------------------------------------------------------------
  // Whole strings

  lemma SnocParts<T>(s: seq<T>, x: T)
    ensures (s + [x])[..|s + [x]| - 1] == s && (s + [x])[|s + [x]| - 1] == x
  {
  }

  lemma SnocSplit<T>(s: seq<T>)
    requires s != []
    ensures s[..|s| - 1] + [s[|s| - 1]] == s
  {
  }

  lemma AppendLast<T>(a: seq<T>, b: seq<T>)
    requires b != []
    ensures (a + b)[..|a + b| - 1] == a + b[..|b| - 1] && (a + b)[|a + b| - 1] == b[|b| - 1]
  {
  }

  lemma TakeNext<T>(s: seq<T>, t: nat)
    requires t < |s|
    ensures s[..t + 1] == s[..t] + [s[t]] && s[..t + 1][..t] == s[..t] && s[..t + 1][t] == s[t]
  {
  }

  lemma TakeTake<T>(s: seq<T>, n: nat, k: nat)
    requires k <= n <= |s|
    ensures s[..n][..k] == s[..k]
  {
  }

  lemma TakeSnoc<T>(a: seq<T>, b: seq<T>, k: nat)
    requires |b| == |a| + 1 && b[..|a|] == a && k <= |a|
    ensures b[..k] == a[..k]
  {
    assert b[..|a|][..k] == b[..k];
  }

  lemma AppendAssoc<T>(a: seq<T>, b: seq<T>, c: seq<T>)
    ensures a + (b + c) == (a + b) + c
  {
  }

  lemma PrefixWhole<T>(s: seq<T>, k: nat)
    requires k == |s|
    ensures s[..k] == s
  {
  }

  lemma AppendNothing<T>(a: seq<T>, b: seq<T>)
    requires b == []
    ensures a + b == a
  {
  }

  /**
   * The result of a run over a string: the text produced and the state
   * reached, or the error of the first symbol that failed and the state the
   * loop had reached before it (the source raises mid-loop, after having
   * updated the key and the marker for the symbols before).
   */
  datatype Outcome = Done(out: string, state: State) | Failed(error: Error, state: State)

  /** What a run reports: the text it produced, or the exception it raised. */
  function Reported(o: Outcome): Result<string> {
    if o.Done? then Ok(o.out) else Err(o.error)
  }

  /** The encrypt or decrypt loop over s, one Step per symbol, from state st. */
  function Run(cfg: Config, dir: Direction, st: State, s: string): (r: Outcome)
    requires Keyed(cfg, st)
    ensures Keyed(cfg, r.state)
    ensures r.Done? ==> |r.out| == |s|
    decreases |s|
  {
    if s == [] then Done([], st)
    else
      match Run(cfg, dir, st, s[..|s| - 1])
      case Failed(e, st') => Failed(e, st')
      case Done(out, st') =>
        match Step(cfg, dir, st', s[|s| - 1])
        case Err(e) => Failed(e, st')
        case Ok(em) => Done(out + [em.symbol], em.next)
  }

  /** The run over s + [x] is the run over s followed by one Step on x. */
  lemma RunSnoc(cfg: Config, dir: Direction, st: State, s: string, x: char)
    requires Keyed(cfg, st)
    ensures var o := Run(cfg, dir, st, s);
            Run(cfg, dir, st, s + [x]) ==
              if o.Failed? then o
              else match Step(cfg, dir, o.state, x)
                   case Err(e) => Failed(e, o.state)
                   case Ok(em) => Done(o.out + [em.symbol], em.next)
  {
    SnocParts(s, x);
  }

  /**
   * One more iteration of a loop over s: if the run over s[..t] stopped in
   * mid and the Step on s[t] from mid emits em, the run over s[..t + 1]
   * has written one more symbol.
   */
  lemma RunNext(cfg: Config, dir: Direction, st: State, s: string, t: nat, out: string, mid: State, em: Emit)
    requires Keyed(cfg, st) && Keyed(cfg, mid) && t < |s|
    requires Run(cfg, dir, st, s[..t]) == Done(out, mid)
    requires Step(cfg, dir, mid, s[t]) == Ok(em)
    ensures Run(cfg, dir, st, s[..t + 1]) == Done(out + [em.symbol], em.next)
  {
    TakeNext(s, t);
    RunSnoc(cfg, dir, st, s[..t], s[t]);
  }

  /**
   * A loop over s that reaches a symbol s[t] outside the alphabet: the run
   * over s fails there, in the state reached before it.
   */
  lemma RunStops(cfg: Config, dir: Direction, st: State, s: string, t: nat, out: string, mid: State)
    requires Keyed(cfg, st) && t < |s|
    requires Run(cfg, dir, st, s[..t]) == Done(out, mid)
    requires s[t] !in Letters(cfg.size)
    ensures Run(cfg, dir, st, s) == Failed(NotInKey(s[t]), mid)
  {
    var letters := Letters(cfg.size);
    RunFailure(cfg, dir, st, s[..t]);
    forall i | 0 <= i < t ensures s[i] in letters {
      assert s[i] == s[..t][i];
    }
    FirstOutsideUnique(s, letters, t);
    RunFailure(cfg, dir, st, s);
  }

  /** The index of the first symbol of s outside the alphabet, or |s| if there is none. */
  function FirstOutside(s: string, letters: string): (k: nat)
    ensures k <= |s|
    ensures forall i :: 0 <= i < k ==> s[i] in letters
    ensures k < |s| ==> s[k] !in letters
  {
    if s == [] then 0
    else if s[0] !in letters then 0
    else
      var k := FirstOutside(s[1..], letters);
      assert forall i :: 0 < i <= k ==> s[i] == s[1..][i - 1];
      k + 1
  }

  /**
   * A run fails exactly when some symbol is outside the alphabet; it then
   * reports the first such symbol, with the state reached just before it.
   */
  lemma {:induction false} RunFailure(cfg: Config, dir: Direction, st: State, s: string)
    requires Keyed(cfg, st)
    ensures var k := FirstOutside(s, Letters(cfg.size));
            Run(cfg, dir, st, s).Done? <==> k == |s|
    ensures var k := FirstOutside(s, Letters(cfg.size));
            k < |s| ==> Run(cfg, dir, st, s[..k]).Done? &&
                        Run(cfg, dir, st, s) == Failed(NotInKey(s[k]), Run(cfg, dir, st, s[..k]).state)
    decreases |s|
  {
    var letters := Letters(cfg.size);
    if s != [] {
      var s' := s[..|s| - 1];
      RunFailure(cfg, dir, st, s');
      var k, k' := FirstOutside(s, letters), FirstOutside(s', letters);
      FirstOutsideSnoc(s, letters);
      if k' < |s'| {
        assert s[..k] == s'[..k'];
      }
    }
  }

  /** FirstOutside is the only index with its two properties. */
  lemma FirstOutsideUnique(s: string, letters: string, j: nat)
    requires j <= |s|
    requires forall i :: 0 <= i < j ==> s[i] in letters
    requires j < |s| ==> s[j] !in letters
    ensures FirstOutside(s, letters) == j
  {
  }

  /**
   * The first offending symbol of s is that of s without its last symbol,
   * or else the last symbol, or else there is none.
   */
  lemma FirstOutsideSnoc(s: string, letters: string)
    requires s != []
    ensures var k' := FirstOutside(s[..|s| - 1], letters);
            FirstOutside(s, letters) == if k' < |s| - 1 || s[|s| - 1] !in letters then k' else |s|
  {
    var s' := s[..|s| - 1];
    var k' := FirstOutside(s', letters);
    var j := if k' < |s| - 1 || s[|s| - 1] !in letters then k' else |s|;
    forall i | 0 <= i < j ensures s[i] in letters {
      if i < |s'| { assert s[i] == s'[i]; }
    }
    if j < |s| {
      if k' < |s'| { assert s[k'] == s'[k']; }
    }
    FirstOutsideUnique(s, letters, j);
  }

  /** The last symbol of a successful run: the run before it succeeded, and so did its Step. */
  lemma RunLast(cfg: Config, dir: Direction, st: State, s: string)
    requires Keyed(cfg, st) && s != [] && Run(cfg, dir, st, s).Done?
    ensures var o := Run(cfg, dir, st, s[..|s| - 1]);
            o.Done? && Step(cfg, dir, o.state, s[|s| - 1]).Ok?
            && Run(cfg, dir, st, s) == Done(o.out + [Step(cfg, dir, o.state, s[|s| - 1]).value.symbol],
                                           Step(cfg, dir, o.state, s[|s| - 1]).value.next)
  {
  }

  /**
   * If a run over out gives s and then one Step turns y into x, the run over
   * out + [y] gives s + [x].
   */
  lemma UndoSnoc(cfg: Config, dir: Direction, st: State, s: string, out: string, mid: State, x: char, y: char, next: State)
    requires Keyed(cfg, st) && Keyed(cfg, mid)
    requires Run(cfg, dir, st, out) == Done(s, mid)
    requires Step(cfg, dir, mid, y) == Ok(Emit(x, next))
    ensures Run(cfg, dir, st, out + [y]) == Done(s + [x], next)
  {
    RunSnoc(cfg, dir, st, out, y);
  }

  /**
   * The inductive step of the round trip: if the other direction undoes
   * the run over all of s but its last symbol, it undoes the run over s.
   */
  lemma UndoLast(cfg: Config, dir: Direction, st: State, s: string)
    requires Keyed(cfg, st) && s != [] && Run(cfg, dir, st, s).Done?
    requires var o := Run(cfg, dir, st, s[..|s| - 1]);
             o.Done? ==> Run(cfg, Reverse(dir), st, o.out) == Done(s[..|s| - 1], o.state)
    ensures var o := Run(cfg, dir, st, s);
            Run(cfg, Reverse(dir), st, o.out) == Done(s, o.state)
  {
    var s', x := s[..|s| - 1], s[|s| - 1];
    SnocSplit(s);
    RunLast(cfg, dir, st, s);
    var o := Run(cfg, dir, st, s');
    var em := Step(cfg, dir, o.state, x).value;
    if dir == Encrypting {
      StepRoundTrip(cfg, o.state, x);
    } else {
      StepRoundTripBack(cfg, o.state, x);
    }
    UndoSnoc(cfg, Reverse(dir), st, s', o.out, o.state, x, em.symbol, em.next);
  }

  /**
   * Running the other direction over what a run produced gives its input
   * back, and both runs pass through the same key and marker: the state
   * after each symbol coincides, so the final states are equal.
   */
  lemma {:induction false} RunUndone(cfg: Config, dir: Direction, st: State, s: string)
    requires Keyed(cfg, st)
    ensures var o := Run(cfg, dir, st, s);
            o.Done? ==> Run(cfg, Reverse(dir), st, o.out) == Done(s, o.state)
    decreases |s|
  {
    if s != [] && Run(cfg, dir, st, s).Done? {
      RunUndone(cfg, dir, st, s[..|s| - 1]);
      UndoLast(cfg, dir, st, s);
    }
  }

  /** Decrypting what encrypting P produced gives P back, with the same final state. */
  lemma RunRoundTrip(cfg: Config, st: State, p: string)
    requires Keyed(cfg, st)
    ensures var e := Run(cfg, Encrypting, st, p);
            e.Done? ==> Run(cfg, Decrypting, st, e.out) == Done(p, e.state)
  {
    RunUndone(cfg, Encrypting, st, p);
  }

  /** Encrypting what decrypting C produced gives C back, with the same final state. */
  lemma RunRoundTripBack(cfg: Config, st: State, c: string)
    requires Keyed(cfg, st)
    ensures var d := Run(cfg, Decrypting, st, c);
            d.Done? ==> Run(cfg, Encrypting, st, d.out) == Done(c, d.state)
  {
    RunUndone(cfg, Decrypting, st, c);
  }

  /** A run over a + b is a run over a followed by a run over b from where it stopped. */
  function Continue(cfg: Config, dir: Direction, o: Outcome, b: string): (r: Outcome)
    requires Keyed(cfg, o.state)
    ensures Keyed(cfg, r.state)
  {
    match o
    case Failed(_, _) => o
    case Done(out, st) =>
      match Run(cfg, dir, st, b)
      case Done(out2, st2) => Done(out + out2, st2)
      case Failed(e, st2) => Failed(e, st2)
  }

  /** The inductive step of RunAppend: from b without its last symbol to b. */
  lemma AppendStep(cfg: Config, dir: Direction, st: State, a: string, b: string)
    requires Keyed(cfg, st) && b != []
    requires Run(cfg, dir, st, a + b[..|b| - 1]) == Continue(cfg, dir, Run(cfg, dir, st, a), b[..|b| - 1])
    ensures Run(cfg, dir, st, a + b) == Continue(cfg, dir, Run(cfg, dir, st, a), b)
  {
    var b', x := b[..|b| - 1], b[|b| - 1];
    AppendLast(a, b);
    SnocSplit(b);
    RunSnoc(cfg, dir, st, a + b', x);
    var o := Run(cfg, dir, st, a);
    if o.Done? {
      RunSnoc(cfg, dir, o.state, b', x);
      var o2 := Run(cfg, dir, o.state, b');
      if o2.Done? {
        match Step(cfg, dir, o2.state, x)
        case Err(_) =>
        case Ok(em) => AppendAssoc(o.out, o2.out, [em.symbol]);
      }
    }
  }

  /** Continuing over nothing changes nothing. */
  lemma ContinueEmpty(cfg: Config, dir: Direction, o: Outcome)
    requires Keyed(cfg, o.state)
    ensures Continue(cfg, dir, o, []) == o
  {
    if o.Done? {
      AppendNothing(o.out, []);
    }
  }

  /** A run over a + b is the run over a continued over b. */
  lemma {:induction false} RunAppend(cfg: Config, dir: Direction, st: State, a: string, b: string)
    requires Keyed(cfg, st)
    ensures Run(cfg, dir, st, a + b) == Continue(cfg, dir, Run(cfg, dir, st, a), b)
    decreases |b|
  {
    if b != [] {
      RunAppend(cfg, dir, st, a, b[..|b| - 1]);
      AppendStep(cfg, dir, st, a, b);
    } else {
      AppendNothing(a, b);
      ContinueEmpty(cfg, dir, Run(cfg, dir, st, a));
    }
  }

  /**
   * Every prefix of a successful run is a successful run whose output is the
   * matching prefix of the output.
   */
  lemma {:induction false} RunPrefix(cfg: Config, dir: Direction, st: State, s: string, k: nat)
    requires Keyed(cfg, st) && k <= |s|
    requires Run(cfg, dir, st, s).Done?
    ensures Run(cfg, dir, st, s[..k]).Done? && Run(cfg, dir, st, s[..k]).out == Run(cfg, dir, st, s).out[..k]
    decreases |s|
  {
    if k < |s| {
      var s' := s[..|s| - 1];
      RunLast(cfg, dir, st, s);
      RunPrefix(cfg, dir, st, s', k);
      TakeTake(s, |s| - 1, k);
      TakeSnoc(Run(cfg, dir, st, s').out, Run(cfg, dir, st, s).out, k);
    } else {
      PrefixWhole(s, k);
      PrefixWhole(Run(cfg, dir, st, s).out, k);
    }
  }

  /**
   * The encrypting and the decrypting side hold the same key and marker
   * after every symbol: the state after a prefix of P on one side equals the
   * state after the matching prefix of the ciphertext on the other.
   */
  lemma Synchronised(cfg: Config, st: State, p: string, k: nat)
    requires Keyed(cfg, st) && k <= |p|
    requires Run(cfg, Encrypting, st, p).Done?
    ensures var c := Run(cfg, Encrypting, st, p).out;
            Run(cfg, Decrypting, st, c[..k]) == Done(p[..k], Run(cfg, Encrypting, st, p[..k]).state)
  {
    RunPrefix(cfg, Encrypting, st, p, k);
    RunRoundTrip(cfg, st, p[..k]);
  }

  // ---------------------------------------------------------------------------
  // Key derivation

  /**
   * One iteration of derive_key (lc4.py:152-159, ls47.py:87-94) for the
   * password symbol c at index t: with (row, col) = find_ix(c), row t % size
   * is rotated right by col and then column t % size down by row.
   */
  function DeriveStep(size: Size, k: string, t: nat, c: char): (r: Result<string>)
    requires IsPermutation(k, Letters(size))
    ensures r.Ok? <==> c in Letters(size)
    ensures r.Err? ==> r.error == NotInAlphabet(c)
    ensures r.Ok? ==> IsPermutation(r.value, Letters(size))
  {
    var q :- FindIx(size, c);
    var i := t % size;
    KeyFacts(size, k);
    var k1 := RotateRight(size, k, i, q.col);
    RotateRightMultiset(size, k, i, q.col);
    RotateDownMultiset(size, k1, i, q.row);
    Ok(RotateDown(size, k1, i, q.row))
  }

  /**
   * derive_key: starting from the alphabet, one DeriveStep per password
   * symbol; it fails at the first symbol outside the alphabet.
   */
  function Derived(size: Size, pw: string): (r: Result<string>)
    ensures r.Ok? <==> FirstOutside(pw, Letters(size)) == |pw|
    ensures r.Err? ==> r.error == NotInAlphabet(pw[FirstOutside(pw, Letters(size))])
    ensures r.Ok? ==> IsPermutation(r.value, Letters(size))
    decreases |pw|
  {
    if pw == [] then Ok(Letters(size))
    else
      FirstOutsideSnoc(pw, Letters(size));
      var k :- Derived(size, pw[..|pw| - 1]);
      DeriveStep(size, k, |pw| - 1, pw[|pw| - 1])
  }

  /** Derived over one more password symbol is one more DeriveStep, at index t. */
  lemma DerivedNext(size: Size, pw: string, t: nat)
    requires t < |pw|
    ensures Derived(size, pw[..t]).Err? ==> Derived(size, pw[..t + 1]) == Derived(size, pw[..t])
    ensures Derived(size, pw[..t]).Ok? ==>
              Derived(size, pw[..t + 1]) == DeriveStep(size, Derived(size, pw[..t]).value, t, pw[t])
  {
    TakeNext(pw, t);
  }

  /** The first password symbol outside the alphabet is the error of the whole derivation. */
  lemma DerivedStops(size: Size, pw: string, t: nat)
    requires t < |pw| && Derived(size, pw[..t]).Ok? && pw[t] !in Letters(size)
    ensures Derived(size, pw) == Err(NotInAlphabet(pw[t]))
  {
    var letters := Letters(size);
    assert FirstOutside(pw[..t], letters) == t;
    forall i | 0 <= i < t ensures pw[i] in letters {
      assert pw[i] == pw[..t][i];
    }
    FirstOutsideUnique(pw, letters, t);
  }

  /** One iteration of the loop, spelled out: with q = find_ix(c), rotate row and column t % size. */
  lemma DerivedGoesOn(size: Size, pw: string, t: nat, k: string, q: Pos, k': string)
    requires t < |pw| && Derived(size, pw[..t]) == Ok(k) && FindIx(size, pw[t]) == Ok(q)
    requires |k| == size * size && q.row < size && q.col < size && t % size < size
    requires k' == RotateDown(size, RotateRight(size, k, t % size, q.col), t % size, q.row)
    ensures Derived(size, pw[..t + 1]) == Ok(k')
  {
    DerivedNext(size, pw, t);
  }

  /** The row counter i = (i + 1) % size stays t % size. */
  lemma NextRow(size: Size, t: nat)
    ensures (t % size + 1) % size == (t + 1) % size
  {
    if size == 6 {} else {}
  }

  /**
   * derive_key: the loop over the password, rotating row i right by the
   * column and then column i down by the row of each symbol's alphabet
   * position, with i counting the symbols modulo size. It computes Derived,
   * so it succeeds exactly when every symbol is in the alphabet, reports the
   * first one that is not, and otherwise yields a permutation of the
   * alphabet. Ls47.DeriveKey is ls47.py's copy of the loop.
   */
  method DeriveKey(size: Size, password: string) returns (r: Result<string>)
    ensures r == Derived(size, password)
  {
    var i := 0;
    var k := Letters(size);
    var t := 0;
    while t < |password|
      invariant t <= |password| && i == t % size && i < size
      invariant Derived(size, password[..t]) == Ok(k) && |k| == size * size
    {
      var q := FindIx(size, password[t]);
      if q.Err? {
        DerivedStops(size, password, t);
        return Err(q.error);
      }
      NextRow(size, t);
      DerivedGoesOn(size, password, t, k, q.value,
                    RotateDown(size, RotateRight(size, k, i, q.value.col), i, q.value.row));
      k := RotateDown(size, RotateRight(size, k, i, q.value.col), i, q.value.row);
      i := (i + 1) % size;
      t := t + 1;
    }
    PrefixWhole(password, t);
    return Ok(k);
  }

  /** derive_key("") is the alphabet itself. */
  lemma DeriveNothing(size: Size)
    ensures Derived(size, "") == Ok(Letters(size))
  {
  }
}
