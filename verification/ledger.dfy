/**
  The ledger: the server's table of clients and balances, the global list of
  pending transaction strings, and the clients that sign and submit transfers.

  The table `std::map<std::shared_ptr<Client>, double> clients` is held as two
  parallel sequences: `clients`, the keys in the map's iteration order (which is
  the order of the pointers, so arbitrary), and `balances`, the values. Amounts
  are millionths (see module Decimal). Balances are `int`: nothing keeps them
  from going negative.
 */
module Ledger {
  import opened Results
  import opened Decimal
  import opened Transaction
  import opened Crypto
  import opened ProofOfWork

  /** Every new client starts with 5 coins. */
  const StartBalance: nat := 5 * Unit

  /** The block reward, 6.25 coins. */
  const Reward: nat := 6_250_000

  /** Number of random digits appended to an id that is already taken. */
  const SuffixLength: nat := 4

  // ---------------------------------------------------------------------------
  // The client table as values
  // ---------------------------------------------------------------------------

  predicate Registered(cs: seq<Client>, id: string) {
    exists c <- cs :: c.id == id
  }

  /** No client pointer occurs twice: the keys of a map. */
  predicate Distinct(cs: seq<Client>) {
    forall i, j :: 0 <= i < j < |cs| ==> cs[i] != cs[j]
  }

  /** Position of the first client with this id, or `|cs|` when there is none. */
  function IndexOf(cs: seq<Client>, id: string): (k: nat)
    ensures k <= |cs|
    ensures k < |cs| <==> Registered(cs, id)
    ensures k < |cs| ==> cs[k].id == id
    ensures forall j :: 0 <= j < k ==> cs[j].id != id
  {
    if cs == [] then 0
    else if cs[0].id == id then 0
    else
      var k := 1 + IndexOf(cs[1..], id);
      assert forall c <- cs :: c == cs[0] || c in cs[1..];
      k
  }

  /** Sum of all balances. */
  function Total(bs: seq<int>): int {
    SumFrom(bs, 0)
  }

  /** Sum of the balances from position `i` on. */
  function SumFrom(bs: seq<int>, i: nat): int
    requires i <= |bs|
    decreases |bs| - i
  {
    if i == |bs| then 0 else bs[i] + SumFrom(bs, i + 1)
  }

  /** A transfer the commit can apply: both parties are registered. */
  predicate Known(cs: seq<Client>, x: Transfer) {
    Registered(cs, x.sender) && Registered(cs, x.receiver)
  }

  /** Pending transaction strings the commit can apply: each parses to a known transfer. */
  predicate Resolvable(cs: seq<Client>, trxs: seq<string>) {
    forall i :: 0 <= i < |trxs| ==> ParseTrx(trxs[i]).Ok? && Known(cs, ParseTrx(trxs[i]).value)
  }

  /** The transfers a list of well-formed transaction strings denotes, in list order. */
  function Decoded(trxs: seq<string>): (xs: seq<Transfer>)
    requires forall i :: 0 <= i < |trxs| ==> ParseTrx(trxs[i]).Ok?
    ensures |xs| == |trxs|
    ensures forall i :: 0 <= i < |trxs| ==> ParseTrx(trxs[i]) == Ok(xs[i])
  {
    seq(|trxs|, i requires 0 <= i < |trxs| => ParseTrx(trxs[i]).value)
  }

  /** Decoding resolvable strings gives known transfers. */
  lemma DecodedKnown(cs: seq<Client>, trxs: seq<string>)
    requires Resolvable(cs, trxs)
    ensures forall i :: 0 <= i < |trxs| ==> Known(cs, Decoded(trxs)[i])
  {
  }

  /** Debit `v` from entry `s`, then credit `v` to entry `r`. */
  function Move(bs: seq<int>, s: nat, r: nat, v: nat): (o: seq<int>)
    requires s < |bs| && r < |bs|
    ensures |o| == |bs|
    ensures forall k :: 0 <= k < |bs| ==>
              o[k] == bs[k] - (if k == s then v else 0) + (if k == r then v else 0)
  {
    var debited := bs[s := bs[s] - v];
    debited[r := debited[r] + v]
  }

  /** One pending transfer, as `mine` applies it: debit the sender, credit the receiver. */
  function ApplyTransfer(cs: seq<Client>, bs: seq<int>, x: Transfer): (r: seq<int>)
    requires |bs| == |cs| && Known(cs, x)
    ensures |r| == |bs|
    ensures Total(r) == Total(bs)
  {
    MoveConserves(bs, IndexOf(cs, x.sender), IndexOf(cs, x.receiver), x.value);
    Move(bs, IndexOf(cs, x.sender), IndexOf(cs, x.receiver), x.value)
  }

  /** The pending transfers applied in list order, with no solvency check; the sum of the balances is kept. */
  function ApplyAll(cs: seq<Client>, bs: seq<int>, xs: seq<Transfer>): (r: seq<int>)
    requires |bs| == |cs|
    requires forall i :: 0 <= i < |xs| ==> Known(cs, xs[i])
    ensures |r| == |bs|
    ensures Total(r) == Total(bs)
    decreases |xs|
  {
    if xs == [] then bs
    else
      assert forall i :: 0 <= i < |xs| - 1 ==> xs[..|xs| - 1][i] == xs[i];
      ApplyTransfer(cs, ApplyAll(cs, bs, xs[..|xs| - 1]), xs[|xs| - 1])
  }

  /**
    The success branch of `mine`: reward the winner, then apply every pending
    transfer. The block adds exactly the reward to the sum of all balances.
   */
  function Committed(cs: seq<Client>, bs: seq<int>, winner: nat, xs: seq<Transfer>): (r: seq<int>)
    requires |bs| == |cs| && winner < |bs|
    requires forall i :: 0 <= i < |xs| ==> Known(cs, xs[i])
    ensures |r| == |bs|
    ensures Total(r) == Total(bs) + Reward
  {
    TotalUpdate(bs, winner, bs[winner] + Reward);
    ApplyAll(cs, bs[winner := bs[winner] + Reward], xs)
  }

  /** The string `mine` hashes before the nonce: every pending transaction, in order. */
  function Joined(trxs: seq<string>): (m: string)
    ensures forall k :: 0 <= k < |trxs| ==> Joined(trxs[..k]) + trxs[k] <= m
    decreases |trxs|, 1
  {
    if trxs == [] then ""
    else
      JoinedGrows(trxs);
      Joined(trxs[..|trxs| - 1]) + trxs[|trxs| - 1]
  }

  lemma JoinedGrows(trxs: seq<string>)
    requires trxs != []
    ensures forall k :: 0 <= k < |trxs| ==>
              Joined(trxs[..k]) + trxs[k] <= Joined(trxs[..|trxs| - 1]) + trxs[|trxs| - 1]
    decreases |trxs|, 0
  {
    var n := |trxs| - 1;
    var prior := trxs[..n];
    var m := Joined(prior) + trxs[n];
    forall k | 0 <= k < |trxs|
      ensures Joined(trxs[..k]) + trxs[k] <= m
    {
      if k < n {
        assert prior[..k] == trxs[..k] && prior[k] == trxs[k];
        var p := Joined(trxs[..k]) + trxs[k];
        assert p <= Joined(prior);
        assert m[..|Joined(prior)|] == Joined(prior);
        assert m[..|p|] == Joined(prior)[..|p|];
      } else {
        assert trxs[..k] == prior;
      }
    }
  }

  /** A nonce wins the block: the hash of the mempool string followed by the nonce meets the difficulty. */
  predicate Solves(mempool: string, nonce: nat, crypto: Primitives): (b: bool)
    ensures b ==> exists j: nat :: j + 4 <= WindowWidth && ZerosAt(crypto.sha256(mempool + NatToDigits(nonce)), j)
  {
    MeetsDifficulty(crypto.sha256(mempool + NatToDigits(nonce)))
  }

  // ---------------------------------------------------------------------------
  // Lemmas about the table
  // ---------------------------------------------------------------------------

  lemma {:induction false} SumFromSame(a: seq<int>, b: seq<int>, i: nat)
    requires i <= |a| == |b|
    requires forall j :: i <= j < |a| ==> a[j] == b[j]
    ensures SumFrom(a, i) == SumFrom(b, i)
    decreases |a| - i
  {
    if i < |a| {
      SumFromSame(a, b, i + 1);
    }
  }

  lemma {:induction false} SumFromShift(a: seq<int>, b: seq<int>, i: nat)
    requires i <= |b|
    ensures SumFrom(a + b, |a| + i) == SumFrom(b, i)
    decreases |b| - i
  {
    if i < |b| {
      SumFromShift(a, b, i + 1);
    }
  }

  lemma {:induction false} SumFromAppend(a: seq<int>, b: seq<int>, i: nat)
    requires i <= |a|
    ensures SumFrom(a + b, i) == SumFrom(a, i) + Total(b)
    decreases |a| - i
  {
    if i < |a| {
      SumFromAppend(a, b, i + 1);
    } else {
      SumFromShift(a, b, 0);
    }
  }

  lemma TotalAppend(a: seq<int>, b: seq<int>)
    ensures Total(a + b) == Total(a) + Total(b)
  {
    SumFromAppend(a, b, 0);
  }

  lemma {:induction false} SumFromUpdate(bs: seq<int>, i: nat, k: nat, x: int)
    requires i <= k < |bs|
    ensures SumFrom(bs[k := x], i) == SumFrom(bs, i) - bs[k] + x
    decreases |bs| - i
  {
    if i < k {
      SumFromUpdate(bs, i + 1, k, x);
    } else {
      SumFromSame(bs, bs[k := x], i + 1);
    }
  }

  /** Replacing one balance changes the sum by the difference. */
  lemma TotalUpdate(bs: seq<int>, k: nat, x: int)
    requires k < |bs|
    ensures Total(bs[k := x]) == Total(bs) - bs[k] + x
  {
    SumFromUpdate(bs, 0, k, x);
  }

  /** Inserting a new entry adds its balance to the sum and nothing else. */
  lemma InsertTotal(bs: seq<int>, slot: nat, b: int)
    requires slot <= |bs|
    ensures Total(bs[..slot] + [b] + bs[slot..]) == Total(bs) + b
  {
    TotalAppend(bs[..slot] + [b], bs[slot..]);
    TotalAppend(bs[..slot], [b]);
    TotalAppend(bs[..slot], bs[slot..]);
    assert SumFrom([b], 1) == 0;
    assert Total([b]) == b;
    assert bs[..slot] + bs[slot..] == bs;
  }

  /** Inserting a client keeps every registered id registered and registers the new one. */
  lemma InsertRegistered(cs: seq<Client>, slot: nat, c: Client, id: string)
    requires slot <= |cs|
    ensures Registered(cs[..slot] + [c] + cs[slot..], id) <==> Registered(cs, id) || c.id == id
  {
    var grown := cs[..slot] + [c] + cs[slot..];
    assert cs == cs[..slot] + cs[slot..];
    assert forall d <- grown :: d in cs || d == c;
    assert c in grown;
    assert forall d <- cs :: d in grown;
  }

  /** Appending a string that parses to a known transfer keeps the list resolvable. */
  lemma AppendResolvable(cs: seq<Client>, trxs: seq<string>, trx: string)
    requires Resolvable(cs, trxs) && ParseTrx(trx).Ok? && Known(cs, ParseTrx(trx).value)
    ensures Resolvable(cs, trxs + [trx])
  {
    assert forall i :: 0 <= i < |trxs| ==> (trxs + [trx])[i] == trxs[i];
  }

  /** Inserting a pointer that is not yet a key keeps the keys distinct. */
  lemma InsertDistinct(cs: seq<Client>, slot: nat, c: Client)
    requires slot <= |cs| && Distinct(cs) && c !in cs
    ensures Distinct(cs[..slot] + [c] + cs[slot..])
  {
    var grown := cs[..slot] + [c] + cs[slot..];
    forall i, j | 0 <= i < j < |grown|
      ensures grown[i] != grown[j]
    {
      if i < slot && j > slot {
        assert grown[j] == cs[j - 1];
      } else if i > slot {
        assert grown[i] == cs[i - 1] && grown[j] == cs[j - 1];
      } else if i == slot {
        assert grown[j] == cs[j - 1];
      } else {
        assert j == slot || (grown[i] == cs[i] && grown[j] == cs[j]);
      }
    }
  }

  /** Inserting a client keeps every pending transaction string resolvable. */
  lemma InsertResolvable(cs: seq<Client>, slot: nat, c: Client, trxs: seq<string>)
    requires slot <= |cs| && Resolvable(cs, trxs)
    ensures Resolvable(cs[..slot] + [c] + cs[slot..], trxs)
  {
    forall i | 0 <= i < |trxs|
      ensures Known(cs[..slot] + [c] + cs[slot..], ParseTrx(trxs[i]).value)
    {
      var x := ParseTrx(trxs[i]).value;
      InsertRegistered(cs, slot, c, x.sender);
      InsertRegistered(cs, slot, c, x.receiver);
    }
  }

  /** A move takes from one entry what it gives to another, so the sum is kept. */
  lemma MoveConserves(bs: seq<int>, s: nat, r: nat, v: nat)
    requires s < |bs| && r < |bs|
    ensures Total(Move(bs, s, r, v)) == Total(bs)
  {
    var debited := bs[s := bs[s] - v];
    TotalUpdate(bs, s, bs[s] - v);
    TotalUpdate(debited, r, debited[r] + v);
  }

  /** Applying one more pending transfer moves its value from its sender to its receiver. */
  lemma ApplyAllStep(cs: seq<Client>, bs: seq<int>, xs: seq<Transfer>, i: nat)
    requires |bs| == |cs| && i < |xs|
    requires forall j :: 0 <= j < |xs| ==> Known(cs, xs[j])
    ensures ApplyAll(cs, bs, xs[..i + 1])
            == Move(ApplyAll(cs, bs, xs[..i]), IndexOf(cs, xs[i].sender), IndexOf(cs, xs[i].receiver), xs[i].value)
  {
    assert xs[..i + 1][..i] == xs[..i];
  }

  /** The entry at `k` is the one a transfer debits or credits. */
  predicate Touches(cs: seq<Client>, x: Transfer, k: nat) {
    IndexOf(cs, x.sender) == k || IndexOf(cs, x.receiver) == k
  }

  lemma {:induction false} ApplyAllUntouched(cs: seq<Client>, bs: seq<int>, xs: seq<Transfer>, k: nat)
    requires |bs| == |cs| && k < |bs|
    requires forall i :: 0 <= i < |xs| ==> Known(cs, xs[i]) && !Touches(cs, xs[i], k)
    ensures ApplyAll(cs, bs, xs)[k] == bs[k]
    decreases |xs|
  {
    if xs != [] {
      var prior, x := xs[..|xs| - 1], xs[|xs| - 1];
      assert forall i :: 0 <= i < |prior| ==> prior[i] == xs[i];
      ApplyAllUntouched(cs, bs, prior, k);
    }
  }

  /**
    A successful block leaves every entry that no pending transfer names unchanged,
    except that the winner gains the reward.
   */
  lemma CommitUntouched(cs: seq<Client>, bs: seq<int>, winner: nat, xs: seq<Transfer>, k: nat)
    requires |bs| == |cs| && winner < |bs| && k < |bs|
    requires forall i :: 0 <= i < |xs| ==> Known(cs, xs[i]) && !Touches(cs, xs[i], k)
    ensures Committed(cs, bs, winner, xs)[k] == bs[k] + (if k == winner then Reward else 0)
  {
    ApplyAllUntouched(cs, bs[winner := bs[winner] + Reward], xs, k);
  }

  /** Applying the same transfer twice takes its value twice from a sender that is not its receiver. */
  lemma ApplyTwice(cs: seq<Client>, bs: seq<int>, x: Transfer)
    requires |bs| == |cs| && Known(cs, x)
    requires IndexOf(cs, x.sender) != IndexOf(cs, x.receiver)
    ensures ApplyAll(cs, bs, [x, x])[IndexOf(cs, x.sender)] == bs[IndexOf(cs, x.sender)] - 2 * x.value
  {
    assert [x, x][..1] == [x];
    assert [x][..0] == [];
    assert ApplyAll(cs, bs, []) == bs;
    var once := ApplyAll(cs, bs, [x]);
    assert once == ApplyTransfer(cs, bs, x);
    assert ApplyAll(cs, bs, [x, x]) == ApplyTransfer(cs, once, x);
  }

  /**
    No solvency re-check at commit: a sender whose balance covers one transfer but
    not two passes admission twice (admission never changes balances), and unless
    it is the block's winner, the block leaves it with a negative balance.
   */
  lemma DoubleSpendOverdraws(cs: seq<Client>, bs: seq<int>, winner: nat, x: Transfer)
    requires |bs| == |cs| && winner < |bs| && Known(cs, x)
    requires IndexOf(cs, x.sender) != IndexOf(cs, x.receiver) && IndexOf(cs, x.sender) != winner
    requires x.value <= bs[IndexOf(cs, x.sender)] < 2 * x.value
    ensures Committed(cs, bs, winner, [x, x])[IndexOf(cs, x.sender)] < 0
  {
    ApplyTwice(cs, bs[winner := bs[winner] + Reward], x);
  }

  /** The loop of `add_client` that appends one random decimal digit per round to a taken id. */
  method AppendDigits(id: string, digits: seq<nat>) returns (newId: string)
    requires forall i :: 0 <= i < |digits| ==> digits[i] < 10
    ensures newId == id + DigitString(digits)
  {
    newId := id;
    for i := 0 to |digits|
      invariant newId == id + DigitString(digits[..i])
    {
      assert digits[..i + 1][..i] == digits[..i];
      newId := newId + [DigitChar(digits[i])];
    }
    assert digits[..|digits|] == digits;
  }

  // ---------------------------------------------------------------------------
  // The global `pending_trxs` vector
  // ---------------------------------------------------------------------------

  class TrxPool {
    var items: seq<string>

    constructor ()
      ensures items == []
    {
      items := [];
    }
  }

  // ---------------------------------------------------------------------------
  // Server
  // ---------------------------------------------------------------------------

  class Server {
    var clients: seq<Client>
    var balances: seq<int>
    /** The process-wide `pending_trxs` this server admits into and mines from. */
    const pool: TrxPool

    /** One balance per client, each client pointer once, and every client points back here. */
    ghost predicate Valid()
      reads this
    {
      && |balances| == |clients|
      && Distinct(clients)
      && (forall c <- clients :: c.server == this)
    }

    /** Every pending transaction parses and names registered clients. */
    ghost predicate Committable()
      reads this, pool
    {
      Resolvable(clients, pool.items)
    }

    constructor (pool: TrxPool)
      ensures Valid() && clients == [] && balances == [] && this.pool == pool
    {
      clients, balances := [], [];
      this.pool := pool;
    }

    /** `get_client`: the first client in iteration order with this id, or null. */
    method GetClient(id: string) returns (c: Client?)
      ensures c == null <==> !Registered(clients, id)
      ensures c != null ==> c.id == id && c == clients[IndexOf(clients, id)]
    {
      var i := 0;
      while i < |clients|
        invariant 0 <= i <= |clients|
        invariant forall j :: 0 <= j < i ==> clients[j].id != id
      {
        if clients[i].id == id {
          return clients[i];
        }
        i := i + 1;
      }
      return null;
    }

    /** `get_wallet`: the balance of the first client with this id, 0 for an unknown id. */
    function GetWallet(id: string): (b: int)
      reads this
      requires Valid()
      ensures !Registered(clients, id) ==> b == 0
      ensures forall k ::
                (0 <= k < |clients| && clients[k].id == id && forall j :: 0 <= j < k ==> clients[j].id != id)
                ==> b == balances[k]
    {
      var k := IndexOf(clients, id);
      if k < |clients| then balances[k] else 0
    }

    /**
      `add_client`: a taken id gets four random digits appended (without checking
      the result again); the new client lands at position `slot` of the iteration
      order with the starting balance. `digits`, `slot` and the key pair stand for
      the random generator, the pointer value and `crypto::generate_key`.
     */
    method AddClient(id: string, digits: seq<nat>, slot: nat, publicKey: string, privateKey: string)
      returns (c: Client)
      requires Valid()
      requires |digits| == SuffixLength && forall i :: 0 <= i < |digits| ==> digits[i] < 10
      requires slot <= |clients|
      modifies this
      ensures Valid() && fresh(c)
      ensures c.id == if Registered(old(clients), id) then id + DigitString(digits) else id
      ensures c.server == this && c.publicKey == publicKey && c.privateKey == privateKey
      ensures clients == old(clients)[..slot] + [c] + old(clients)[slot..]
      ensures balances == old(balances)[..slot] + [StartBalance as int] + old(balances)[slot..]
      ensures Total(balances) == old(Total(balances)) + StartBalance
      ensures old(Committable()) ==> Committable()
    {
      var existing := GetClient(id);
      var newId := id;
      if existing != null {
        newId := AppendDigits(id, digits);
      }
      c := new Client(newId, this, publicKey, privateKey);
      ghost var before := clients;
      InsertTotal(balances, slot, StartBalance);
      if Resolvable(before, pool.items) {
        InsertResolvable(before, slot, c, pool.items);
      }
      InsertDistinct(before, slot, c);
      clients := clients[..slot] + [c] + clients[slot..];
      balances := balances[..slot] + [StartBalance as int] + balances[slot..];
      assert forall d <- clients :: d in before || d == c by {
        assert before == before[..slot] + before[slot..];
      }
    }

    /**
      `add_pending_trx`: parse the string (throwing on a malformed one), then append
      it to the pending list exactly when the signature verifies under the sender's
      public key and the sender's balance is at least the amount. Balances are not
      touched. The sender must be registered: the source dereferences the result of
      `get_client` without a check.
     */
    method AddPendingTrx(trx: string, signature: string, crypto: Primitives) returns (r: Result<bool>)
      requires Valid()
      requires ParseTrx(trx).Ok? ==> Registered(clients, ParseTrx(trx).value.sender)
      modifies pool
      ensures r.Err? <==> ParseTrx(trx).Err?
      ensures r.Err? ==> r.error == InvalidTrx
      ensures r.Ok? ==>
                (r.value <==>
                   && crypto.verify(clients[IndexOf(clients, ParseTrx(trx).value.sender)].publicKey, trx, signature)
                   && GetWallet(ParseTrx(trx).value.sender) >= ParseTrx(trx).value.value)
      ensures pool.items == if r == Ok(true) then old(pool.items) + [trx] else old(pool.items)
      ensures old(Committable()) && (r == Ok(true) ==> Registered(clients, ParseTrx(trx).value.receiver))
              ==> Committable()
    {
      var parsed := ParseTrx(trx);
      if parsed.Err? {
        return Err(parsed.error);
      }
      var x := parsed.value;
      var sender := GetClient(x.sender);
      var authentic := crypto.verify(sender.publicKey, trx, signature);
      var rich := sender.GetWallet() >= x.value;
      if authentic && rich {
        if Resolvable(clients, pool.items) && Registered(clients, x.receiver) {
          AppendResolvable(clients, pool.items, trx);
        }
        pool.items := pool.items + [trx];
        return Ok(true);
      }
      return Ok(false);
    }

    /** The loop that builds the `mempool` string: every pending transaction, in order. */
    method Digest() returns (mempool: string)
      ensures mempool == Joined(pool.items)
    {
      mempool := "";
      for i := 0 to |pool.items|
        invariant mempool == Joined(pool.items[..i])
      {
        assert pool.items[..i + 1][..i] == pool.items[..i];
        mempool := mempool + pool.items[i];
      }
      assert pool.items[..|pool.items|] == pool.items;
    }

    /**
      The success branch of `mine`: the winner gains the reward, then every pending
      transaction is parsed again and applied in list order with no solvency check,
      and the pending list is emptied.
     */
    method Commit(winner: nat)
      requires Valid() && Committable() && winner < |clients|
      modifies this, pool
      ensures Valid() && Committable() && clients == old(clients)
      ensures balances == Committed(clients, old(balances), winner, Decoded(old(pool.items)))
      ensures pool.items == []
    {
      balances := balances[winner := balances[winner] + Reward];
      ghost var credited := balances;
      var items := pool.items;
      ghost var xs := Decoded(items);
      DecodedKnown(clients, items);
      var i := 0;
      while i < |items|
        invariant 0 <= i <= |items|
        invariant clients == old(clients) && pool.items == items
        invariant |balances| == |clients|
        invariant balances == ApplyAll(clients, credited, xs[..i])
      {
        var x := ParseTrx(items[i]).value;
        assert x == xs[i];
        ApplyAllStep(clients, credited, xs, i);
        balances := Move(balances, IndexOf(clients, x.sender), IndexOf(clients, x.receiver), x.value);
        i := i + 1;
      }
      assert xs[..i] == xs;
      pool.items := [];
    }

    /**
      The search of one pass of `mine`: the client at position `k` of the iteration
      order draws `nonces[k]`; the pass stops at the first client whose nonce wins.
     */
    method FindWinner(mempool: string, nonces: seq<nat>, crypto: Primitives) returns (found: bool, winner: nat)
      requires |nonces| == |clients|
      ensures found ==> && winner < |clients| && Solves(mempool, nonces[winner], crypto)
                        && forall k :: 0 <= k < winner ==> !Solves(mempool, nonces[k], crypto)
      ensures !found ==> forall k :: 0 <= k < |clients| ==> !Solves(mempool, nonces[k], crypto)
    {
      for k := 0 to |clients|
        invariant forall j :: 0 <= j < k ==> !Solves(mempool, nonces[j], crypto)
      {
        var hash := crypto.sha256(mempool + NatToDigits(nonces[k]));
        if MeetsDifficulty(hash) {
          return true, k;
        }
      }
      return false, 0;
    }

    /**
      One pass of `mine`: build the mempool string, search for a winner, and let the
      first winner commit the block and return its nonce. When no client wins, the
      pass changes nothing (the source then starts another pass).
     */
    method MineRound(nonces: seq<nat>, crypto: Primitives) returns (found: bool, winner: nat, nonce: nat)
      requires Valid() && Committable() && |nonces| == |clients|
      modifies this, pool
      ensures Valid() && Committable() && clients == old(clients)
      ensures found ==> && winner < |clients| && nonce == nonces[winner]
                        && Solves(Joined(old(pool.items)), nonce, crypto)
                        && (forall k :: 0 <= k < winner ==> !Solves(Joined(old(pool.items)), nonces[k], crypto))
                        && balances == Committed(clients, old(balances), winner, Decoded(old(pool.items)))
                        && pool.items == []
      ensures !found ==> && (forall k :: 0 <= k < |clients| ==> !Solves(Joined(old(pool.items)), nonces[k], crypto))
                         && balances == old(balances) && pool.items == old(pool.items)
    {
      var mempool := Digest();
      found, winner := FindWinner(mempool, nonces, crypto);
      nonce := 0;
      if found {
        nonce := nonces[winner];
        Commit(winner);
      }
    }
  }

  // ---------------------------------------------------------------------------
  // Client
  // ---------------------------------------------------------------------------

  class Client {
    /** `get_id()` */
    const id: string
    const server: Server
    /** `get_publickey()` */
    const publicKey: string
    const privateKey: string

    /** The key pair stands for what `crypto::generate_key` produces. */
    constructor (id: string, server: Server, publicKey: string, privateKey: string)
      ensures this.id == id && this.server == server
      ensures this.publicKey == publicKey && this.privateKey == privateKey
    {
      this.id, this.server := id, server;
      this.publicKey, this.privateKey := publicKey, privateKey;
    }

    /** `get_wallet`: what the server reports for this client's id. */
    function GetWallet(): (b: int)
      reads server
      requires server.Valid()
      ensures !Registered(server.clients, id) ==> b == 0
      ensures forall k ::
                (0 <= k < |server.clients| && server.clients[k].id == id
                 && forall j :: 0 <= j < k ==> server.clients[j].id != id)
                ==> b == server.balances[k]
    {
      server.GetWallet(id)
    }

    /**
      `transfer_money`: refuse an unknown receiver; otherwise build the canonical
      string with this client's own id as sender, sign exactly that string and
      return what the server's admission returns.
     */
    method TransferMoney(receiver: string, value: nat, crypto: Primitives) returns (r: Result<bool>)
      requires server.Valid() && Registered(server.clients, id)
      modifies server.pool
      ensures !Registered(server.clients, receiver) ==> r == Ok(false)
      ensures Registered(server.clients, receiver) ==> (r.Err? <==> !(IsWord(id) && IsWord(receiver)))
      ensures r == Ok(true) <==>
                && Registered(server.clients, receiver) && IsWord(id) && IsWord(receiver)
                && crypto.verify(server.clients[IndexOf(server.clients, id)].publicKey,
                                 Encode(id, receiver, value), crypto.sign(privateKey, Encode(id, receiver, value)))
                && server.GetWallet(id) >= value
      ensures server.pool.items == if r == Ok(true) then old(server.pool.items) + [Encode(id, receiver, value)]
                                   else old(server.pool.items)
      ensures old(server.Committable()) ==> server.Committable()
    {
      var known := server.GetClient(receiver);
      if known == null {
        return Ok(false);
      }
      var trx := Encode(id, receiver, value);
      var signature := crypto.sign(privateKey, trx);
      ParseEncoded(id, receiver, value);
      r := server.AddPendingTrx(trx, signature, crypto);
    }
  }
}
