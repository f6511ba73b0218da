/** The proof-of-work test `Server::mine` applies to each hash it tries. */
module ProofOfWork {
  import opened Decimal

  /** How many leading characters of the hash the test looks at. */
  const WindowWidth: nat := 10

  /** "0000" occurs in `w` starting at position `i`. */
  predicate ZerosAt(w: string, i: nat) {
    i + 4 <= |w| && w[i] == '0' && w[i + 1] == '0' && w[i + 2] == '0' && w[i + 3] == '0'
  }

  /** End of the part of the hash the test looks at: ten characters, or the whole hash when it is shorter. */
  function WindowEnd(hash: string): (n: nat)
    ensures n <= WindowWidth && n <= |hash|
  {
    if |hash| < WindowWidth then |hash| else WindowWidth
  }

  /** No character of the window is a line terminator, so each `.*` can cover its part. */
  predicate LineFree(hash: string) {
    forall i :: 0 <= i < WindowEnd(hash) ==> !IsLineTerminator(hash[i])
  }

  /** Scans the window from position `i` for four consecutive '0' characters. */
  function ZeroRunFrom(hash: string, i: nat): bool
    decreases WindowWidth - i
  {
    if i + 4 > WindowEnd(hash) then false
    else ZerosAt(hash, i) || ZeroRunFrom(hash, i + 1)
  }

  /** The scan from `i` finds a run exactly when one starts at or after `i` inside the window. */
  lemma {:induction false} ZeroRunFound(hash: string, i: nat)
    ensures ZeroRunFrom(hash, i) <==> exists j: nat :: i <= j && j + 4 <= WindowEnd(hash) && ZerosAt(hash, j)
    decreases WindowWidth - i
  {
    if i + 4 <= WindowEnd(hash) {
      ZeroRunFound(hash, i + 1);
    }
  }

  /**
    `regex_match` of ".*0000.*" against the first ten characters of the hash: the
    whole window must match, so it must hold four consecutive zeros and no line
    terminator.
   */
  predicate MeetsDifficulty(hash: string): (b: bool)
    ensures b <==> LineFree(hash) && exists j: nat :: j + 4 <= WindowEnd(hash) && ZerosAt(hash, j)
  {
    ZeroRunFound(hash, 0);
    LineFree(hash) && ZeroRunFrom(hash, 0)
  }

  /** Only the first ten characters of the hash decide the test. */
  lemma DifficultyWindow(hash: string, tail: string)
    requires |hash| >= WindowWidth
    ensures MeetsDifficulty(hash + tail) <==> MeetsDifficulty(hash)
  {
    var long := hash + tail;
    assert WindowEnd(long) == WindowEnd(hash) == WindowWidth;
    assert forall i :: 0 <= i < WindowWidth ==> long[i] == hash[i];
    assert forall j: nat :: j + 4 <= WindowWidth ==> (ZerosAt(long, j) <==> ZerosAt(hash, j));
  }
}
