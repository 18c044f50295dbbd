/**
 * lc4.py: the ElsieFour program. Its validators, its key derivation loop,
 * and a session holding the globals that encrypt, decrypt and the nonce
 * chaining read and write (key, mp, nonce, nonce_enc, and the settings
 * size, marker_mode, nonce_mode, nonce_size).
 */
module Lc4 {
  import opened Grid
  import opened Engine

  // ---------------------------------------------------------------------------
  // Validation (lc4.py:61-95)

  /** The head of a strictly sorted string is below every other symbol in it. */
  lemma SortedHead(r: string)
    requires StrictlySorted(r) && r != []
    ensures forall d :: d in r[1..] ==> r[0] < d
  {
    forall d | d in r[1..] ensures r[0] < d {
      var k :| 0 <= k < |r[1..]| && r[1..][k] == d;
      assert r[k + 1] == d;
    }
  }

  /** c inserted into a strictly sorted string, unless it is there already. */
  function Insert(r: string, c: char): (r': string)
    requires StrictlySorted(r)
    ensures StrictlySorted(r')
    ensures forall d :: d in r' <==> d == c || d in r
  {
    if r == [] then [c]
    else if c < r[0] then [c] + r
    else if c == r[0] then r
    else
      var t := Insert(r[1..], c);
      assert forall d :: d in r <==> d == r[0] || d in r[1..] by {
        assert r == [r[0]] + r[1..];
      }
      SortedHead(r);
      assert forall i :: 0 <= i < |t| ==> r[0] < t[i] by {
        forall i | 0 <= i < |t| ensures r[0] < t[i] {
          assert t[i] in t;
        }
      }
      [r[0]] + t
  }

  /**
   * missing_letters(s, t): the symbols of s that are not in t, sorted and
   * without repeats, as ''.join(sorted(set(...))) builds them.
   */
  function MissingLetters(s: string, t: string): (r: string)
    ensures StrictlySorted(r)
    ensures forall c :: c in r <==> c in s && c !in t
  {
    if s == [] then ""
    else
      var r := MissingLetters(s[1..], t);
      assert forall c :: c in s <==> c == s[0] || c in s[1..] by {
        assert s == [s[0]] + s[1..];
      }
      if s[0] in t then r else Insert(r, s[0])
  }

  /**
   * The symbols of letters that occur more than once in key, sorted. The
   * source sorts the list of such symbols taken from letters; letters has
   * no repeats, so that list has none either.
   */
  function Duplicates(key: string, letters: string): (r: string)
    ensures StrictlySorted(r)
    ensures forall c :: c in r <==> c in letters && Count(key, c) > 1
  {
    if letters == [] then ""
    else
      var r := Duplicates(key, letters[1..]);
      assert forall c :: c in letters <==> c == letters[0] || c in letters[1..] by {
        assert letters == [letters[0]] + letters[1..];
      }
      if Count(key, letters[0]) > 1 then Insert(r, letters[0]) else r
  }

  /** A symbol occurs in a string exactly when it is counted there. */
  lemma CountIn(s: string, c: char)
    ensures c in s <==> Count(s, c) > 0
  {
    MultisetCount(s, c);
    assert c in s <==> c in multiset(s);
  }

  /**
   * check_key: a key is accepted exactly when it is a permutation of the
   * alphabet; otherwise the error lists the illegal, the missing and the
   * duplicated symbols, each sorted and without repeats.
   */
  function CheckKey(size: Size, key: string): (r: Result<()>)
    ensures r.Ok? <==> IsPermutation(key, Letters(size))
    ensures r.Err? ==> r.error.InvalidKey?
    ensures r.Err? ==> var e := r.error;
              StrictlySorted(e.illegal) && StrictlySorted(e.missing) && StrictlySorted(e.duplicates)
              && (forall c :: c in e.illegal <==> c in key && c !in Letters(size))
              && (forall c :: c in e.missing <==> c in Letters(size) && c !in key)
              && (forall c :: c in e.duplicates <==> c in Letters(size) && Count(key, c) > 1)
  {
    var letters := Letters(size);
    var illegal := MissingLetters(key, letters);
    var missing := MissingLetters(letters, key);
    var duplicates := Duplicates(key, letters);
    PermutationClean(key, letters, illegal, missing, duplicates);
    if illegal == [] && missing == [] && duplicates == [] then Ok(())
    else Err(InvalidKey(illegal, missing, duplicates))
  }

  /** A string none of whose symbols exists is empty. */
  lemma NoneIn(s: string)
    ensures (forall c :: c !in s) ==> s == []
  {
    if s != [] {
      assert s[0] in s;
    }
  }

  /**
   * Against a repetition-free alphabet, a key is a permutation exactly when
   * it has no illegal, no missing and no duplicated symbol.
   */
  lemma PermutationClean(key: string, letters: string, illegal: string, missing: string, duplicates: string)
    requires forall c :: c in illegal <==> c in key && c !in letters
    requires forall c :: c in missing <==> c in letters && c !in key
    requires forall c :: c in duplicates <==> c in letters && Count(key, c) > 1
    requires letters == Letters(6) || letters == Letters(7)
    ensures IsPermutation(key, letters) <==> illegal == [] && missing == [] && duplicates == []
  {
    var size: Size := if letters == Letters(6) then 6 else 7;
    LettersDistinct(size);
    if IsPermutation(key, letters) {
      PermutationFacts(key, letters);
      NoneIn(illegal);
      NoneIn(missing);
      forall c | c in letters ensures Count(key, c) <= 1 {
        PermutationCount(key, letters, c);
        DistinctCount(letters, c);
      }
      NoneIn(duplicates);
    }
    if illegal == [] && missing == [] && duplicates == [] {
      forall c ensures multiset(key)[c] == multiset(letters)[c] {
        MultisetCount(key, c);
        MultisetCount(letters, c);
        CountIn(key, c);
        CountIn(letters, c);
        DistinctCount(letters, c);
        assert c !in illegal && c !in missing && c !in duplicates;
      }
    }
  }

  /**
   * The symbols of s outside the alphabet, as check_nonce, check_plaintext
   * and check_ciphertext compute them; they fail exactly when this is not
   * empty, and it is empty exactly when every symbol of s is in the alphabet.
   */
  function Illegal(size: Size, s: string): (r: string)
    ensures StrictlySorted(r)
    ensures forall c :: c in r <==> c in s && c !in Letters(size)
    ensures r == [] <==> OverAlphabet(size, s)
  {
    var r := MissingLetters(s, Letters(size));
    if r != [] then
      assert r[0] in r;
      r
    else
      r
  }

  /** check_nonce */
  function CheckNonce(size: Size, nonce: string): (r: Result<()>)
    ensures r.Ok? <==> OverAlphabet(size, nonce)
    ensures r.Err? ==> r.error == IllegalNonce(Illegal(size, nonce)) && r.error.illegal != []
  {
    var illegal := Illegal(size, nonce);
    if illegal != [] then Err(IllegalNonce(illegal)) else Ok(())
  }

  /** check_plaintext */
  function CheckPlaintext(size: Size, s: string): (r: Result<()>)
    ensures r.Ok? <==> OverAlphabet(size, s)
    ensures r.Err? ==> r.error == IllegalPlaintext(Illegal(size, s)) && r.error.illegal != []
  {
    var illegal := Illegal(size, s);
    if illegal != [] then Err(IllegalPlaintext(illegal)) else Ok(())
  }

  /** check_ciphertext */
  function CheckCiphertext(size: Size, s: string): (r: Result<()>)
    ensures r.Ok? <==> OverAlphabet(size, s)
    ensures r.Err? ==> r.error == IllegalCiphertext(Illegal(size, s)) && r.error.illegal != []
  {
    var illegal := Illegal(size, s);
    if illegal != [] then Err(IllegalCiphertext(illegal)) else Ok(())
  }

  // ---------------------------------------------------------------------------
  // Key derivation

  /** A key derived from a password is one that check_key accepts. */
  lemma DerivedKeyChecks(size: Size, pw: string)
    requires Derived(size, pw).Ok?
    ensures CheckKey(size, Derived(size, pw).value) == Ok(())
  {
  }

  // ---------------------------------------------------------------------------
  // Nonces (lc4.py:206-229)

  /**
   * nonce_mode 1 (the LC4 default, flag -n0): the nonce travels in clear in
   * front of the ciphertext. nonce_mode 2 (the LS47 default, flag -n1): the
   * nonce is encrypted along with the message.
   */
  datatype NonceMode = ClearNonce | EncryptedNonce

  /** The globals the nonce operations read and write besides the settings. */
  datatype Snapshot = Snapshot(state: State, nonce: string, nonceEnc: string)

  /** A returned value (or the exception raised), and the globals afterwards. */
  datatype Reply = Reply(result: Result<string>, after: Snapshot)

  /**
   * encrypt_with_nonce: encrypt nonce + plaintext, record the first
   * nonce_size ciphertext symbols as nonce_enc, and return either the clear
   * nonce followed by the rest of the ciphertext (mode 1) or the whole
   * ciphertext (mode 2). An exception inside encrypt leaves nonce_enc as it was.
   */
  function EncryptedWithNonce(cfg: Config, mode: NonceMode, nonceSize: nat, sn: Snapshot, p: string): (r: Reply)
    requires Keyed(cfg, sn.state)
    ensures Keyed(cfg, r.after.state)
  {
    match Run(cfg, Encrypting, sn.state, sn.nonce + p)
    case Failed(e, st) => Reply(Err(e), Snapshot(st, sn.nonce, sn.nonceEnc))
    case Done(c, st) =>
      var out := if mode == ClearNonce then sn.nonce + Drop(c, nonceSize) else c;
      Reply(Ok(out), Snapshot(st, sn.nonce, Take(c, nonceSize)))
  }

  /**
   * decrypt_with_nonce. Mode 1: the nonce is the first nonce_size symbols of
   * the ciphertext; encrypting it (into nonce_enc) brings the key and marker
   * to where the sender's were after the nonce, and the rest is decrypted.
   * Mode 2: the whole ciphertext is decrypted; the nonce is the head of the
   * result and is cut off, and nonce_enc is the head of the ciphertext.
   */
  function DecryptedWithNonce(cfg: Config, mode: NonceMode, nonceSize: nat, sn: Snapshot, c: string): (r: Reply)
    requires Keyed(cfg, sn.state)
    ensures Keyed(cfg, r.after.state)
  {
    if mode == ClearNonce then
      var n := Take(c, nonceSize);
      match Run(cfg, Encrypting, sn.state, n)
      case Failed(e, st) => Reply(Err(e), Snapshot(st, n, sn.nonceEnc))
      case Done(ne, st) =>
        var o := Run(cfg, Decrypting, st, Drop(c, nonceSize));
        Reply(Reported(o), Snapshot(o.state, n, ne))
    else
      match Run(cfg, Decrypting, sn.state, c)
      case Failed(e, st) => Reply(Err(e), Snapshot(st, sn.nonce, sn.nonceEnc))
      case Done(q, st) => Reply(Ok(Drop(q, nonceSize)), Snapshot(st, Take(q, nonceSize), Take(c, nonceSize)))
  }

  /**
   * The message with its nonce in front: a successful encryption has
   * nonce_size + len(plaintext) symbols, and in mode 1 it starts with the
   * nonce itself. It succeeds exactly when every symbol of the nonce and
   * the plaintext is in the alphabet.
   */
  lemma NonceShape(cfg: Config, mode: NonceMode, sn: Snapshot, p: string)
    requires Keyed(cfg, sn.state)
    ensures var r := EncryptedWithNonce(cfg, mode, |sn.nonce|, sn, p);
            r.result.Ok? <==> OverAlphabet(cfg.size, sn.nonce + p)
    ensures var r := EncryptedWithNonce(cfg, mode, |sn.nonce|, sn, p);
            r.result.Ok? ==> |r.result.value| == |sn.nonce| + |p|
                             && (mode == ClearNonce ==> r.result.value[..|sn.nonce|] == sn.nonce)
  {
    var s := sn.nonce + p;
    RunFailure(cfg, Encrypting, sn.state, s);
    var k := FirstOutside(s, Letters(cfg.size));
    if k < |s| {
      assert s[k] !in Letters(cfg.size);
    }
    if !(forall i :: 0 <= i < |s| ==> s[i] in Letters(cfg.size)) {
      var i :| 0 <= i < |s| && s[i] !in Letters(cfg.size);
      assert k <= i;
    }
  }

  /**
   * A successful encryption with a nonce, in two parts: the run over the
   * nonce, and the run over the plaintext from where that one stopped.
   */
  lemma EncryptedParts(cfg: Config, mode: NonceMode, sn: Snapshot, p: string)
    requires Keyed(cfg, sn.state)
    requires EncryptedWithNonce(cfg, mode, |sn.nonce|, sn, p).result.Ok?
    ensures Run(cfg, Encrypting, sn.state, sn.nonce).Done?
    ensures var on := Run(cfg, Encrypting, sn.state, sn.nonce);
            var op := Run(cfg, Encrypting, on.state, p);
            op.Done? && EncryptedWithNonce(cfg, mode, |sn.nonce|, sn, p)
              == Reply(Ok(if mode == ClearNonce then sn.nonce + op.out else on.out + op.out),
                       Snapshot(op.state, sn.nonce, on.out))
  {
    var n := sn.nonce;
    RunAppend(cfg, Encrypting, sn.state, n, p);
    var on := Run(cfg, Encrypting, sn.state, n);
    var op := Run(cfg, Encrypting, on.state, p);
    SplitAt(on.out, op.out);
  }

  /**
   * The two sides of a nonce exchange, from the same key and marker:
   * decrypting what encrypt_with_nonce produced returns the plaintext and
   * leaves every global as the encrypting side left it: the same key and
   * marker, the nonce recovered, and the same nonce_enc. What the decrypting
   * side held in nonce and nonce_enc before plays no part.
   */
  lemma NonceRoundTrip(cfg: Config, mode: NonceMode, sn: Snapshot, sn': Snapshot, p: string)
    requires Keyed(cfg, sn.state) && sn'.state == sn.state
    requires EncryptedWithNonce(cfg, mode, |sn.nonce|, sn, p).result.Ok?
    ensures var e := EncryptedWithNonce(cfg, mode, |sn.nonce|, sn, p);
            DecryptedWithNonce(cfg, mode, |sn.nonce|, sn', e.result.value) == Reply(Ok(p), e.after)
  {
    EncryptedParts(cfg, mode, sn, p);
    var n := sn.nonce;
    var on := Run(cfg, Encrypting, sn.state, n);
    var op := Run(cfg, Encrypting, on.state, p);
    RunRoundTrip(cfg, on.state, p);
    if mode == ClearNonce {
      SplitAt(n, op.out);
    } else {
      RunAppend(cfg, Encrypting, sn.state, n, p);
      RunRoundTrip(cfg, sn.state, n + p);
      SplitAt(n, p);
      SplitAt(on.out, op.out);
    }
  }

  /** Two strings over the alphabet join into one. */
  lemma LegalJoin(size: Size, a: string, b: string)
    requires OverAlphabet(size, a) && OverAlphabet(size, b)
    ensures OverAlphabet(size, a + b)
  {
    forall i | 0 <= i < |a + b| ensures (a + b)[i] in Letters(size) {
      if i >= |a| {
        assert (a + b)[i] == b[i - |a|];
      }
    }
  }

  /** Every symbol a successful run writes is in the alphabet. */
  lemma OutputLegal(cfg: Config, dir: Direction, st: State, s: string)
    requires Keyed(cfg, st) && Run(cfg, dir, st, s).Done?
    ensures OverAlphabet(cfg.size, Run(cfg, dir, st, s).out)
  {
    var out := Run(cfg, dir, st, s).out;
    RunUndone(cfg, dir, st, s);
    RunFailure(cfg, Reverse(dir), st, out);
  }

  /** The tail of a string over the alphabet is over the alphabet. */
  lemma DropLegal(size: Size, s: string, n: nat)
    requires OverAlphabet(size, s)
    ensures OverAlphabet(size, Drop(s, n))
  {
    var rest := Drop(s, n);
    forall i | 0 <= i < |rest| ensures rest[i] in Letters(size) {
      assert rest[i] == s[|s| - |rest| + i];
    }
  }

  /**
   * With a nonce over the alphabet, the text encrypt_with_nonce returns is
   * over the alphabet: check_ciphertext accepts it.
   */
  lemma CiphertextLegal(cfg: Config, mode: NonceMode, sn: Snapshot, p: string)
    requires Keyed(cfg, sn.state)
    requires EncryptedWithNonce(cfg, mode, |sn.nonce|, sn, p).result.Ok?
    requires OverAlphabet(cfg.size, sn.nonce)
    ensures OverAlphabet(cfg.size, EncryptedWithNonce(cfg, mode, |sn.nonce|, sn, p).result.value)
  {
    var o := Run(cfg, Encrypting, sn.state, sn.nonce + p);
    OutputLegal(cfg, Encrypting, sn.state, sn.nonce + p);
    DropLegal(cfg.size, o.out, |sn.nonce|);
    LegalJoin(cfg.size, sn.nonce, Drop(o.out, |sn.nonce|));
  }

  // ---------------------------------------------------------------------------
  // The program's globals (lc4.py:162-229, 376-434)

  /** Where the main program takes the key from: -ks/-kf, -ws/-wf, or neither. */
  datatype KeySource = Alphabet | Keyword(password: string) | KeyString(key: string)

  /**
   * key = letters; a non-empty keyword replaces it by derive_key(keyword),
   * a non-empty key string by the key string (an empty one is false in
   * Python and leaves the alphabet).
   */
  function ChosenKey(size: Size, source: KeySource): (r: Result<string>)
    ensures source.Alphabet? ==> r == Ok(Letters(size))
    ensures source.Keyword? ==> r == Derived(size, source.password)
    ensures source.KeyString? ==> r == Ok(if source.key == "" then Letters(size) else source.key)
  {
    match source
    case Alphabet => Ok(Letters(size))
    case Keyword(pw) => if pw == "" then Ok(Letters(size)) else Derived(size, pw)
    case KeyString(k) => if k == "" then Ok(Letters(size)) else Ok(k)
  }

  /**
   * The set-up of the main program: check_nonce, then the key (derive_key
   * may raise), then check_key. The result is the initial key.
   */
  function Opening(size: Size, nonce: string, source: KeySource): (r: Result<string>)
    ensures r.Ok? <==> CheckNonce(size, nonce).Ok? && ChosenKey(size, source).Ok?
                       && CheckKey(size, ChosenKey(size, source).value).Ok?
    ensures r.Ok? ==> r.value == ChosenKey(size, source).value && IsPermutation(r.value, Letters(size))
    ensures r.Err? ==> r.error == if CheckNonce(size, nonce).Err? then CheckNonce(size, nonce).error
                                  else if ChosenKey(size, source).Err? then ChosenKey(size, source).error
                                  else CheckKey(size, ChosenKey(size, source).value).error
  {
    var nonceOk :- CheckNonce(size, nonce);
    var key :- ChosenKey(size, source);
    var keyOk :- CheckKey(size, key);
    Ok(key)
  }

  /**
   * The globals of lc4.py: the settings fixed at start-up (size, the two
   * modes, nonce_size, initialkey) and what encrypt, decrypt and the nonce
   * operations update (key, mp, nonce, nonce_enc).
   */
  class Session {
    const size: Size
    const markerMode: MarkerMode
    const nonceMode: NonceMode
    const nonceSize: nat
    const initialKey: string
    var key: string
    var marker: Pos
    var nonce: string
    var nonceEnc: string

    function Cfg(): Config {
      Config(size, markerMode)
    }

    function Now(): State
      reads this
    {
      State(key, marker)
    }

    function Snap(): Snapshot
      reads this
    {
      Snapshot(Now(), nonce, nonceEnc)
    }

    /** The key is a permutation of the alphabet, and so is the key it started from. */
    predicate Valid()
      reads this
    {
      Keyed(Cfg(), Now()) && IsPermutation(initialKey, Letters(size))
    }

    /**
     * After check_nonce and check_key: nonce_size = len(nonce),
     * nonce_enc = "", initialkey = key, mp = (0, 0).
     */
    constructor (size: Size, markerMode: MarkerMode, nonceMode: NonceMode, nonce: string, key: string)
      requires IsPermutation(key, Letters(size))
      ensures Valid()
      ensures this.size == size && this.markerMode == markerMode && this.nonceMode == nonceMode
      ensures this.nonce == nonce && nonceSize == |nonce| && nonceEnc == ""
      ensures initialKey == key && this.key == key && marker == Pos(0, 0)
    {
      this.size := size;
      this.markerMode := markerMode;
      this.nonceMode := nonceMode;
      this.nonce := nonce;
      nonceSize := |nonce|;
      nonceEnc := "";
      initialKey := key;
      this.key := key;
      marker := Pos(0, 0);
    }

    /** key = initialkey; mp = (0, 0), as before decrypting in the self-test (lc4.py:315). */
    method Reset()
      requires Valid()
      modifies this
      ensures Valid() && key == initialKey && marker == Pos(0, 0)
      ensures nonce == old(nonce) && nonceEnc == old(nonceEnc)
    {
      key := initialKey;
      marker := Pos(0, 0);
    }

    /**
     * The second half of each iteration of encrypt and decrypt, first part:
     * key = rotate_right(key, pp[0], 1), and the marker follows if
     * marker_mode is 1.
     */
    method TurnRow(row: nat)
      requires Valid() && row < size
      modifies this
      ensures Now() == RowTurn(Cfg(), old(Now()), row) && Valid()
      ensures nonce == old(nonce) && nonceEnc == old(nonceEnc)
    {
      KeyFacts(size, key);
      key := RotateRight(size, key, row, 1);
      if markerMode == MarkerFollowsTile {
        marker := RotateMarkerRight(size, marker, row, 1);
      }
    }

    /**
     * The second part: cp = find_pos(key, c), key = rotate_down(key, cp[1], 1),
     * the marker following if marker_mode is 1, and then
     * mp = add_pos(mp, find_ix(c)).
     */
    method TurnColumn(c: char)
      requires Valid() && c in Letters(size)
      modifies this
      ensures Now() == ColumnTurn(Cfg(), old(Now()), c) && Valid()
      ensures nonce == old(nonce) && nonceEnc == old(nonceEnc)
    {
      KeySymbol(size, key, c);
      var cp := FindPos(size, key, c).value;
      var mp := marker;
      if markerMode == MarkerFollowsTile {
        mp := RotateMarkerDown(size, marker, cp.col, 1);
      }
      ColumnTurnParts(Cfg(), Now(), c, cp, mp);
      key, marker := RotateDown(size, key, cp.col, 1), AddPos(size, mp, FindIx(size, c).value);
    }

    /**
     * encrypt: the loop over the plaintext, updating key and mp after every
     * symbol. It does what Run describes: on a symbol outside the key it
     * raises, with key and mp as the symbols before it left them.
     */
    method Encrypt(plaintext: string) returns (r: Result<string>)
      requires Valid()
      modifies this
      ensures Valid()
      ensures var o := Run(Cfg(), Encrypting, old(Now()), plaintext);
              r == Reported(o) && Now() == o.state
      ensures nonce == old(nonce) && nonceEnc == old(nonceEnc)
    {
      ghost var st := Now();
      var ciphertext := "";
      var t := 0;
      while t < |plaintext|
        invariant t <= |plaintext| && Valid()
        invariant Run(Cfg(), Encrypting, st, plaintext[..t]) == Done(ciphertext, Now())
        invariant nonce == old(nonce) && nonceEnc == old(nonceEnc)
      {
        var p := plaintext[t];
        var pp := FindPos(size, key, p);
        if pp.Err? {
          KeySymbol(size, key, p);
          RunStops(Cfg(), Encrypting, st, plaintext, t, ciphertext, Now());
          return Err(pp.error);
        }
        ghost var mid, before := Now(), ciphertext;
        EncryptSymbol(Cfg(), mid, p, pp.value);
        var mix := Mix(Cfg(), Now());
        var c := FindAtPos(size, key, AddPos(size, pp.value, mix));
        ciphertext := ciphertext + [c];
        TurnRow(pp.value.row);
        TurnColumn(c);
        RunNext(Cfg(), Encrypting, st, plaintext, t, before, mid, Emit(c, Now()));
        t := t + 1;
      }
      PrefixWhole(plaintext, t);
      return Ok(ciphertext);
    }

    /**
     * decrypt: the loop over the ciphertext, updating key and mp after every
     * symbol, as Run describes it.
     */
    method Decrypt(ciphertext: string) returns (r: Result<string>)
      requires Valid()
      modifies this
      ensures Valid()
      ensures var o := Run(Cfg(), Decrypting, old(Now()), ciphertext);
              r == Reported(o) && Now() == o.state
      ensures nonce == old(nonce) && nonceEnc == old(nonceEnc)
    {
      ghost var st := Now();
      var plaintext := "";
      var t := 0;
      while t < |ciphertext|
        invariant t <= |ciphertext| && Valid()
        invariant Run(Cfg(), Decrypting, st, ciphertext[..t]) == Done(plaintext, Now())
        invariant nonce == old(nonce) && nonceEnc == old(nonceEnc)
      {
        var c := ciphertext[t];
        var cp := FindPos(size, key, c);
        if cp.Err? {
          KeySymbol(size, key, c);
          RunStops(Cfg(), Decrypting, st, ciphertext, t, plaintext, Now());
          return Err(cp.error);
        }
        ghost var mid, before := Now(), plaintext;
        DecryptSymbol(Cfg(), mid, c, cp.value);
        var mix := Mix(Cfg(), Now());
        var pp := SubPos(size, cp.value, mix);
        var p := FindAtPos(size, key, pp);
        plaintext := plaintext + [p];
        TurnRow(pp.row);
        TurnColumn(c);
        RunNext(Cfg(), Decrypting, st, ciphertext, t, before, mid, Emit(p, Now()));
        t := t + 1;
      }
      PrefixWhole(ciphertext, t);
      return Ok(plaintext);
    }
  
    /**
     * encrypt_with_nonce, as EncryptedWithNonce describes it: key and mp
     * move on over nonce + plaintext, nonce_enc becomes the head of the
     * ciphertext, and the nonce stays.
     */
    method EncryptWithNonce(plaintext: string) returns (r: Result<string>)
      requires Valid()
      modifies this
      ensures Valid()
      ensures Reply(r, Snap()) == EncryptedWithNonce(Cfg(), nonceMode, nonceSize, old(Snap()), plaintext)
    {
      var ciphertext :- Encrypt(nonce + plaintext);
      nonceEnc := Take(ciphertext, nonceSize);
      if nonceMode == ClearNonce {
        return Ok(nonce + Drop(ciphertext, nonceSize));
      } else {
        return Ok(ciphertext);
      }
    }

    /** decrypt_with_nonce, as DecryptedWithNonce describes it. */
    method DecryptWithNonce(ciphertext: string) returns (r: Result<string>)
      requires Valid()
      modifies this
      ensures Valid()
      ensures Reply(r, Snap()) == DecryptedWithNonce(Cfg(), nonceMode, nonceSize, old(Snap()), ciphertext)
    {
      if nonceMode == ClearNonce {
        nonce := Take(ciphertext, nonceSize);
        nonceEnc :- Encrypt(nonce);
        r := Decrypt(Drop(ciphertext, nonceSize));
      } else {
        var plaintext :- Decrypt(ciphertext);
        nonce := Take(plaintext, nonceSize);
        nonceEnc := Take(ciphertext, nonceSize);
        return Ok(Drop(plaintext, nonceSize));
      }
    }

    /**
     * Encrypting a message from the command line (lc4.py:444-449): the
     * signature is appended, check_plaintext rejects a symbol outside the
     * alphabet before anything changes, and encrypt_with_nonce follows.
     */
    method EncryptMessage(plaintext: string, signature: string) returns (r: Result<string>)
      requires Valid()
      modifies this
      ensures Valid()
      ensures CheckPlaintext(size, plaintext + signature).Err? ==>
                r == Err(CheckPlaintext(size, plaintext + signature).error) && Snap() == old(Snap())
      ensures CheckPlaintext(size, plaintext + signature).Ok? ==>
                Reply(r, Snap()) == EncryptedWithNonce(Cfg(), nonceMode, nonceSize, old(Snap()), plaintext + signature)
    {
      var message := plaintext + signature;
      var checked :- CheckPlaintext(size, message);
      r := EncryptWithNonce(message);
    }

    /**
     * Decrypting a message from the command line (lc4.py:455-458):
     * check_ciphertext, then decrypt_with_nonce.
     */
    method DecryptMessage(ciphertext: string) returns (r: Result<string>)
      requires Valid()
      modifies this
      ensures Valid()
      ensures CheckCiphertext(size, ciphertext).Err? ==>
                r == Err(CheckCiphertext(size, ciphertext).error) && Snap() == old(Snap())
      ensures CheckCiphertext(size, ciphertext).Ok? ==>
                Reply(r, Snap()) == DecryptedWithNonce(Cfg(), nonceMode, nonceSize, old(Snap()), ciphertext)
    {
      var checked :- CheckCiphertext(size, ciphertext);
      r := DecryptWithNonce(ciphertext);
    }

    /**
     * The exchange the self-test runs (lc4.py:309-317): check and encrypt
     * the message with the nonce, reset key and mp to the initial key and
     * (0, 0), check and decrypt the ciphertext. With a legal message and a
     * nonce of nonce_size legal symbols, decryption returns the message.
     */
    method EncryptThenDecrypt(plaintext: string) returns (r: Result<string>)
      requires Valid() && |nonce| == nonceSize && key == initialKey && marker == Pos(0, 0)
      modifies this
      ensures Valid()
      ensures CheckPlaintext(size, plaintext).Ok? && CheckNonce(size, old(nonce)).Ok? ==> r == Ok(plaintext)
      ensures CheckPlaintext(size, plaintext).Ok? && CheckNonce(size, old(nonce)).Ok? ==>
                Snap() == EncryptedWithNonce(Cfg(), nonceMode, nonceSize, old(Snap()), plaintext).after
      ensures CheckPlaintext(size, plaintext).Err? ==> r == Err(CheckPlaintext(size, plaintext).error) && Snap() == old(Snap())
    {
      var checked :- CheckPlaintext(size, plaintext);
      ghost var sent := Snap();
      if CheckNonce(size, nonce).Ok? {
        LegalJoin(size, nonce, plaintext);
        NonceShape(Cfg(), nonceMode, sent, plaintext);
      }
      var ciphertext :- EncryptWithNonce(plaintext);
      Reset();
      ghost var received := Snap();
      if CheckNonce(size, sent.nonce).Ok? {
        NonceRoundTrip(Cfg(), nonceMode, sent, received, plaintext);
        CiphertextLegal(Cfg(), nonceMode, sent, plaintext);
      }
      var ciphertextChecked :- CheckCiphertext(size, ciphertext);
      r := DecryptWithNonce(ciphertext);
    }
  }

  /**
   * The start-up of the main program (lc4.py:376-434): check_nonce, the
   * key from the chosen source, check_key, and the globals set as the
   * Session constructor sets them. It fails exactly as Opening does.
   */
  method Open(size: Size, markerMode: MarkerMode, nonceMode: NonceMode, nonce: string, source: KeySource)
    returns (r: Result<Session>)
    ensures r.Ok? <==> Opening(size, nonce, source).Ok?
    ensures r.Err? ==> r.error == Opening(size, nonce, source).error
    ensures r.Ok? ==> var s := r.value;
              fresh(s) && s.Valid() && s.size == size && s.markerMode == markerMode && s.nonceMode == nonceMode
              && s.nonce == nonce && s.nonceSize == |nonce| && s.nonceEnc == ""
              && s.initialKey == Opening(size, nonce, source).value && s.key == s.initialKey && s.marker == Pos(0, 0)
  {
    var nonceOk :- CheckNonce(size, nonce);
    var key := Letters(size);
    match source {
      case Alphabet =>
      case Keyword(pw) =>
        if pw != "" {
          key :- DeriveKey(size, pw);
        }
      case KeyString(k) =>
        if k != "" {
          key := k;
        }
    }
    var keyOk :- CheckKey(size, key);
    var session := new Session(size, markerMode, nonceMode, nonce, key);
    return Ok(session);
  }
}
