/**
  The transaction string: built by `Client::transfer_money` as
  `sender-receiver-amount` and taken apart again by `Server::parse_trx`
  with the pattern `(\w+)-(\w+)-(\d+.\d+)`.
 */
module Transaction {
  import opened Results
  import opened Decimal

  /** What `parse_trx` recovers from a transaction string; the value is in millionths. */
  datatype Transfer = Transfer(sender: string, receiver: string, value: nat)

  /** The message of the exception `parse_trx` throws. */
  const InvalidTrx: string := "Invalid trx!"

  /** `\w`: a letter, a digit or an underscore. */
  predicate IsWordChar(c: char) {
    ('a' <= c <= 'z') || ('A' <= c <= 'Z') || IsDigit(c) || c == '_'
  }

  /** What `\w+` matches. */
  predicate IsWord(s: string) {
    |s| > 0 && forall i :: 0 <= i < |s| ==> IsWordChar(s[i])
  }

  /**
    The canonical transaction string a client signs and submits. Its dashes are the
    two separators and whatever dashes the ids themselves hold.
   */
  function Encode(sender: string, receiver: string, value: nat): (t: string)
    ensures Dashes(t) == Dashes(sender) + Dashes(receiver) + 2
  {
    DashesOfSplit(sender, receiver, FormatAmount(value));
    AmountHasNoDash(value);
    sender + "-" + receiver + "-" + FormatAmount(value)
  }

  /** Length of the longest prefix of `t` whose characters all satisfy `p`. */
  function Span(t: string, p: char -> bool): (n: nat)
    ensures n <= |t|
    ensures forall i :: 0 <= i < n ==> p(t[i])
    ensures n < |t| ==> !p(t[n])
  {
    if t == [] || !p(t[0]) then 0 else 1 + Span(t[1..], p)
  }

  /**
    One `(\w+)-` step of the pattern: the word run at the start of `t`, which must be
    followed by a dash, and what comes after that dash.
   */
  function TakeField(t: string): (r: Result<(string, string)>)
    ensures r.Ok? ==> IsWord(r.value.0) && t == r.value.0 + "-" + r.value.1
    ensures r.Err? ==> r.error == InvalidTrx
  {
    var i := Span(t, IsWordChar);
    if i == 0 || i == |t| || t[i] != '-' then Err(InvalidTrx)
    else
      assert t == t[..i] + "-" + t[i + 1..];
      Ok((t[..i], t[i + 1..]))
  }

  /** The `(\d+.\d+)` group, read as `std::stod` reads it, in millionths. */
  function ParseAmount(s: string): (r: Result<nat>)
    ensures r.Ok? ==> var k := Span(s, IsDigit);
                      DigitsValue(s[..k]) * Unit <= r.value < (DigitsValue(s[..k]) + 1) * Unit
    ensures r.Err? ==> r.error == InvalidTrx
  {
    var k := Span(s, IsDigit);
    if k == 0 || k == |s| || s[k] != '.' || !IsNumeral(s[k + 1..]) then Err(InvalidTrx)
    else Ok(AmountValue(s[..k], s[k + 1..]))
  }

  /**
    `parse_trx` as the pattern evidently intends it, matched against the whole
    string: the sender and the receiver are the word runs before the first two
    dashes, and the rest must be digits, a point and digits. `SearchTrx` below is
    the search the source performs instead.
   */
  function ParseTrx(t: string): (r: Result<Transfer>)
    ensures r.Ok? ==> IsWord(r.value.sender) && IsWord(r.value.receiver)
    ensures r.Err? ==> r.error == InvalidTrx
  {
    match TakeField(t)
    case Err(e) => Err(e)
    case Ok((sender, rest)) =>
      match TakeField(rest)
      case Err(e) => Err(e)
      case Ok((receiver, amount)) =>
        match ParseAmount(amount)
        case Err(e) => Err(e)
        case Ok(value) => Ok(Transfer(sender, receiver, value))
  }

  lemma {:induction false} SpanOfPrefix(a: string, b: string, p: char -> bool)
    requires forall i :: 0 <= i < |a| ==> p(a[i])
    requires b != [] && !p(b[0])
    ensures Span(a + b, p) == |a|
  {
    if a != [] {
      assert (a + b)[1..] == a[1..] + b;
      SpanOfPrefix(a[1..], b, p);
    }
  }

  lemma TakeFieldComplete(w: string, rest: string)
    requires IsWord(w)
    ensures TakeField(w + "-" + rest) == Ok((w, rest))
  {
    var t := w + "-" + rest;
    assert t == w + ("-" + rest);
    SpanOfPrefix(w, "-" + rest, IsWordChar);
    assert t[..|w|] == w;
    assert t[|w| + 1..] == rest;
  }

  lemma AmountComplete(whole: string, frac: string)
    requires IsNumeral(whole) && IsNumeral(frac)
    ensures ParseAmount(whole + "." + frac) == Ok(AmountValue(whole, frac))
  {
    var s := whole + "." + frac;
    assert s == whole + ("." + frac);
    SpanOfPrefix(whole, "." + frac, IsDigit);
    assert s[..|whole|] == whole;
    assert s[|whole| + 1..] == frac;
  }

  lemma AmountSound(s: string) returns (whole: string, frac: string)
    requires ParseAmount(s).Ok?
    ensures IsNumeral(whole) && IsNumeral(frac) && s == whole + "." + frac
    ensures ParseAmount(s) == Ok(AmountValue(whole, frac))
  {
    var k := Span(s, IsDigit);
    whole, frac := s[..k], s[k + 1..];
    assert s == whole + "." + frac;
  }

  /**
    Every string of the shape `word-word-digits.digits` parses, to its two words
    and the amount its digits denote.
   */
  lemma ParseComplete(sender: string, receiver: string, whole: string, frac: string)
    requires IsWord(sender) && IsWord(receiver) && IsNumeral(whole) && IsNumeral(frac)
    ensures ParseTrx(sender + "-" + receiver + "-" + whole + "." + frac)
         == Ok(Transfer(sender, receiver, AmountValue(whole, frac)))
  {
    var amount := whole + "." + frac;
    var rest := receiver + "-" + amount;
    assert sender + "-" + receiver + "-" + whole + "." + frac == sender + "-" + rest;
    TakeFieldComplete(sender, rest);
    TakeFieldComplete(receiver, amount);
    AmountComplete(whole, frac);
  }

  /** Every string that parses has the shape `word-word-digits.digits`. */
  lemma ParseSound(t: string) returns (sender: string, receiver: string, whole: string, frac: string)
    requires ParseTrx(t).Ok?
    ensures IsWord(sender) && IsWord(receiver) && IsNumeral(whole) && IsNumeral(frac)
    ensures t == sender + "-" + receiver + "-" + whole + "." + frac
    ensures ParseTrx(t) == Ok(Transfer(sender, receiver, AmountValue(whole, frac)))
  {
    var first := TakeField(t);
    assert first.Ok?;
    var rest := first.value.1;
    var second := TakeField(rest);
    assert second.Ok?;
    var amount := second.value.1;
    assert ParseAmount(amount).Ok?;
    sender, receiver := first.value.0, second.value.0;
    whole, frac := AmountSound(amount);
    Regroup(sender, receiver, whole, frac);
  }

  lemma AmountRegroup(sender: string, receiver: string, whole: string, frac: string)
    ensures sender + "-" + receiver + "-" + (whole + "." + frac)
         == sender + "-" + receiver + "-" + whole + "." + frac
  {
  }

  lemma Regroup(sender: string, receiver: string, whole: string, frac: string)
    ensures sender + "-" + (receiver + "-" + (whole + "." + frac))
         == sender + "-" + receiver + "-" + whole + "." + frac
  {
  }

  /** A dash-free prefix before a dash is determined by the string. */
  lemma FirstDash(a: string, x: string, b: string, y: string)
    requires '-' !in a && '-' !in b
    requires a + "-" + x == b + "-" + y
    ensures a == b && x == y
  {
    var t := a + "-" + x;
    assert t == b + "-" + y;
    assert t[|a|] == '-' && t[|b|] == '-';
    assert forall i :: 0 <= i < |a| ==> t[i] == a[i] && a[i] != '-';
    assert forall i :: 0 <= i < |b| ==> t[i] == b[i] && b[i] != '-';
    assert |a| == |b|;
    assert a == t[..|a|] && b == t[..|b|];
    assert x == t[|a| + 1..] && y == (b + "-" + y)[|b| + 1..];
  }

  lemma WordHasNoDash(s: string)
    requires IsWord(s)
    ensures '-' !in s
  {
    assert forall i :: 0 <= i < |s| ==> s[i] != '-';
  }

  lemma DigitsHaveNoDash(s: string)
    requires AllDigits(s)
    ensures '-' !in s
  {
    assert forall i :: 0 <= i < |s| ==> s[i] != '-';
  }

  /** The number of dashes in a string. */
  function Dashes(s: string): nat {
    multiset(s)['-']
  }

  /** A string that parses has exactly two dashes: the two separators. */
  lemma ParsedHasTwoDashes(t: string)
    requires ParseTrx(t).Ok?
    ensures Dashes(t) == 2
  {
    var s, r, w, f := ParseSound(t);
    WordHasNoDash(s);
    WordHasNoDash(r);
    DigitsHaveNoDash(w);
    DigitsHaveNoDash(f);
    assert multiset(t) == multiset(s) + multiset("-") + multiset(r) + multiset("-")
                          + multiset(w) + multiset(".") + multiset(f);
  }

  lemma DashesOfSplit(sender: string, receiver: string, amount: string)
    ensures Dashes(sender + "-" + receiver + "-" + amount)
         == Dashes(sender) + Dashes(receiver) + Dashes(amount) + 2
  {
    assert multiset(sender + "-" + receiver + "-" + amount)
        == multiset(sender) + multiset("-") + multiset(receiver) + multiset("-") + multiset(amount);
  }

  lemma IdsHaveNoDash(sender: string, receiver: string, amount: string)
    requires Dashes(sender + "-" + receiver + "-" + amount) == 2
    ensures '-' !in sender && '-' !in receiver
  {
    DashesOfSplit(sender, receiver, amount);
  }

  /** If `sender-receiver-amount` parses and has no other dashes, the ids are its fields. */
  lemma FieldsOfParsed(sender: string, receiver: string, amount: string)
    requires '-' !in amount
    requires ParseTrx(sender + "-" + receiver + "-" + amount).Ok?
    ensures IsWord(sender) && IsWord(receiver)
  {
    var t := sender + "-" + receiver + "-" + amount;
    ParsedHasTwoDashes(t);
    IdsHaveNoDash(sender, receiver, amount);
    var first := TakeField(t);
    var second := TakeField(first.value.1);
    var s, r, a := first.value.0, second.value.0, second.value.1;
    WordHasNoDash(s);
    WordHasNoDash(r);
    assert t == s + "-" + (r + "-" + a);
    SameFields(sender, receiver, amount, s, r, a);
  }

  lemma SameFields(sender: string, receiver: string, amount: string, s: string, r: string, a: string)
    requires '-' !in sender && '-' !in receiver && '-' !in s && '-' !in r
    requires sender + "-" + receiver + "-" + amount == s + "-" + (r + "-" + a)
    ensures sender == s && receiver == r
  {
    assert sender + "-" + receiver + "-" + amount == sender + "-" + (receiver + "-" + amount);
    FirstDash(sender, receiver + "-" + amount, s, r + "-" + a);
    FirstDash(receiver, amount, r, a);
  }

  lemma AmountHasNoDash(value: nat)
    ensures '-' !in FormatAmount(value)
  {
    DigitsHaveNoDash(NatToDigits(value / Unit));
    DigitsHaveNoDash(FixedDigits(value % Unit, Decimals));
  }

  /** Only word ids survive the trip through `parse_trx`. */
  lemma EncodedParsesOnlyWords(sender: string, receiver: string, value: nat)
    requires ParseTrx(Encode(sender, receiver, value)).Ok?
    ensures IsWord(sender) && IsWord(receiver)
  {
    AmountHasNoDash(value);
    FieldsOfParsed(sender, receiver, FormatAmount(value));
  }

  /**
    The round trip between `transfer_money` and `parse_trx`: the string a client
    builds parses back to its sender, receiver and amount exactly when both ids are
    word strings; otherwise `parse_trx` throws.
   */
  lemma ParseEncoded(sender: string, receiver: string, value: nat)
    ensures ParseTrx(Encode(sender, receiver, value))
         == if IsWord(sender) && IsWord(receiver) then Ok(Transfer(sender, receiver, value))
            else Err(InvalidTrx)
  {
    if IsWord(sender) && IsWord(receiver) {
      EncodedWordsParse(sender, receiver, value);
    } else if ParseTrx(Encode(sender, receiver, value)).Ok? {
      EncodedParsesOnlyWords(sender, receiver, value);
    }
  }

  /** The string a client builds from word ids parses back to its three fields. */
  lemma EncodedWordsParse(sender: string, receiver: string, value: nat)
    requires IsWord(sender) && IsWord(receiver)
    ensures ParseTrx(Encode(sender, receiver, value)) == Ok(Transfer(sender, receiver, value))
  {
    var whole, frac := NatToDigits(value / Unit), FixedDigits(value % Unit, Decimals);
    assert FormatAmount(value) == whole + "." + frac;
    AmountRegroup(sender, receiver, whole, frac);
    ParseComplete(sender, receiver, whole, frac);
    AmountRoundTrip(value);
  }

  /** `Encode` followed by `parse_trx` is the identity on well-formed transfers. */
  lemma RoundTrip(x: Transfer)
    requires IsWord(x.sender) && IsWord(x.receiver)
    ensures ParseTrx(Encode(x.sender, x.receiver, x.value)) == Ok(x)
  {
    ParseEncoded(x.sender, x.receiver, x.value);
  }

  // ---------------------------------------------------------------------------
  // `parse_trx` as written: `std::regex_search` finds the pattern anywhere
  // ---------------------------------------------------------------------------

  /** Where the run of word characters that starts at `i` ends. */
  function WordEnd(t: string, i: nat): (e: nat)
    requires i <= |t|
    ensures i <= e <= |t|
    ensures forall j :: i <= j < e ==> IsWordChar(t[j])
    ensures e < |t| ==> !IsWordChar(t[e])
    decreases |t| - i
  {
    if i == |t| || !IsWordChar(t[i]) then i else WordEnd(t, i + 1)
  }

  /** Where the run of digits that starts at `i` ends. */
  function DigitEnd(t: string, i: nat): (e: nat)
    requires i <= |t|
    ensures i <= e <= |t|
    ensures forall j :: i <= j < e ==> IsDigit(t[j])
    ensures e < |t| ==> !IsDigit(t[e])
    decreases |t| - i
  {
    if i == |t| || !IsDigit(t[i]) then i else DigitEnd(t, i + 1)
  }

  /**
    Where `(\d+.\d+)` ends when it is tried at `q`, in ECMAScript's backtracking
    order. The greedy first `\d+` takes the whole digit run; `.` then takes the next
    character unless it is a line terminator, and the second `\d+` the digit run after
    it. When no digit follows, the first `\d+` gives back two digits, one for `.` and
    one for the second `\d+`.
   */
  function AmountEnd(t: string, q: nat): (r: Result<nat>)
    requires q <= |t|
    ensures r.Ok? ==> q + 3 <= r.value <= |t| && IsDigit(t[q]) && IsDigit(t[r.value - 1])
    ensures r.Err? ==> r.error == InvalidTrx
  {
    var e := DigitEnd(t, q);
    if q < e && e + 1 < |t| && !IsLineTerminator(t[e]) && IsDigit(t[e + 1]) then Ok(DigitEnd(t, e + 1))
    else if q + 3 <= e then Ok(e)
    else Err(InvalidTrx)
  }

  /**
    One `(\w+)-` step tried at `i`: where the word run ends, when it is non-empty and
    followed by a dash. A shorter word run is never followed by a dash, so backtracking
    into `\w+` finds nothing more.
   */
  function WordDash(t: string, i: nat): (r: Result<nat>)
    requires i <= |t|
    ensures r.Ok? ==> i < r.value < |t| && t[r.value] == '-'
    ensures r.Ok? ==> forall j :: i <= j < r.value ==> IsWordChar(t[j])
    ensures r.Err? ==> r.error == InvalidTrx
  {
    var e := WordEnd(t, i);
    if e == i || e == |t| || t[e] != '-' then Err(InvalidTrx) else Ok(e)
  }

  /** The match of `(\w+)-(\w+)-(\d+.\d+)` that starts at `p`, as its three group texts. */
  function MatchAt(t: string, p: nat): (r: Result<(string, string, string)>)
    requires p <= |t|
    ensures r.Ok? ==> IsWord(r.value.0) && IsWord(r.value.1) && |r.value.2| >= 3
    ensures r.Err? ==> r.error == InvalidTrx
  {
    match WordDash(t, p)
    case Err(e) => Err(e)
    case Ok(e1) =>
      match WordDash(t, e1 + 1)
      case Err(e) => Err(e)
      case Ok(e2) =>
        match AmountEnd(t, e2 + 1)
        case Err(e) => Err(e)
        case Ok(e3) => Ok((t[p..e1], t[e1 + 1..e2], t[e2 + 1..e3]))
  }

  /** The leftmost match that starts at or after `p`. */
  function SearchFrom(t: string, p: nat): (r: Result<(string, string, string)>)
    requires p <= |t|
    ensures r.Ok? ==> IsWord(r.value.0) && IsWord(r.value.1) && |r.value.2| >= 3
    ensures r.Err? ==> r.error == InvalidTrx
    decreases |t| - p
  {
    if p == |t| then Err(InvalidTrx)
    else
      match MatchAt(t, p)
      case Ok(groups) => Ok(groups)
      case Err(_) => SearchFrom(t, p + 1)
  }

  /**
    `parse_trx` as the source writes it: `regex_search` for the leftmost match,
    yielding the sender, the receiver and the text `std::stod` then reads, or
    throwing "Invalid trx!" when there is no match.
   */
  function SearchTrx(t: string): (r: Result<(string, string, string)>)
    ensures r.Ok? ==> IsWord(r.value.0) && IsWord(r.value.1) && |r.value.2| >= 3
    ensures r.Err? ==> r.error == InvalidTrx
  {
    SearchFrom(t, 0)
  }

  lemma {:induction false} WordEndAt(t: string, i: nat, e: nat)
    requires i <= e < |t| && !IsWordChar(t[e])
    requires forall j :: i <= j < e ==> IsWordChar(t[j])
    ensures WordEnd(t, i) == e
    decreases e - i
  {
    if i < e {
      WordEndAt(t, i + 1, e);
    }
  }

  lemma {:induction false} DigitEndAt(t: string, i: nat, e: nat)
    requires i <= e <= |t| && (e < |t| ==> !IsDigit(t[e]))
    requires forall j :: i <= j < e ==> IsDigit(t[j])
    ensures DigitEnd(t, i) == e
    decreases e - i
  {
    if i < e {
      DigitEndAt(t, i + 1, e);
    }
  }

  /** An amount text that reads is matched by `(\d+.\d+)` to its end. */
  lemma AmountEndWhole(u: string)
    requires ParseAmount(u).Ok?
    ensures AmountEnd(u, 0) == Ok(|u|)
  {
    var whole, frac := AmountSound(u);
    var k := |whole|;
    assert forall j :: 0 <= j < k ==> u[j] == whole[j];
    assert u[k] == '.';
    assert forall j :: k < j < |u| ==> u[j] == frac[j - k - 1];
    DigitEndAt(u, 0, k);
    DigitEndAt(u, k + 1, |u|);
  }

  /** Text after `d1 c d2`, where `c` is neither a digit nor a line terminator, is cut off at the dash. */
  lemma AmountEndShort(d1: char, c: char, d2: char, rest: string)
    requires IsDigit(d1) && IsDigit(d2) && !IsDigit(c) && !IsLineTerminator(c)
    ensures AmountEnd([d1, c, d2] + "-" + rest, 0) == Ok(3)
  {
    var u := [d1, c, d2] + "-" + rest;
    assert u[0] == d1 && u[1] == c && u[2] == d2 && u[3] == '-';
    DigitEndAt(u, 0, 1);
    DigitEndAt(u, 2, 3);
  }

  lemma {:induction false} DigitEndShift(a: string, u: string, i: nat)
    requires i <= |u|
    ensures DigitEnd(a + u, |a| + i) == |a| + DigitEnd(u, i)
    decreases |u| - i
  {
    if i < |u| {
      assert (a + u)[|a| + i] == u[i];
      DigitEndShift(a, u, i + 1);
    }
  }

  lemma AmountEndShift(a: string, u: string, q: nat)
    requires q <= |u|
    ensures AmountEnd(u, q).Ok? <==> AmountEnd(a + u, |a| + q).Ok?
    ensures AmountEnd(u, q).Ok? ==> AmountEnd(a + u, |a| + q).value == |a| + AmountEnd(u, q).value
  {
    var e := DigitEnd(u, q);
    DigitEndShift(a, u, q);
    if e + 1 < |u| {
      assert (a + u)[|a| + e] == u[e] && (a + u)[|a| + e + 1] == u[e + 1];
      DigitEndShift(a, u, e + 1);
    }
  }

  /** The match at `p` when its three steps succeed. */
  lemma MatchOf(t: string, p: nat, e1: nat, e2: nat, e3: nat)
    requires p <= |t|
    requires WordDash(t, p) == Ok(e1) && WordDash(t, e1 + 1) == Ok(e2) && AmountEnd(t, e2 + 1) == Ok(e3)
    ensures MatchAt(t, p) == Ok((t[p..e1], t[e1 + 1..e2], t[e2 + 1..e3]))
  {
  }

  /** Two word runs from `p`, each followed by a dash: both `(\w+)-` steps succeed. */
  lemma WordsAt(t: string, p: nat, e1: nat, e2: nat)
    requires p < e1 && e1 + 1 < e2 < |t| && t[e1] == '-' && t[e2] == '-'
    requires forall j :: p <= j < e1 ==> IsWordChar(t[j])
    requires forall j :: e1 < j < e2 ==> IsWordChar(t[j])
    ensures WordDash(t, p) == Ok(e1) && WordDash(t, e1 + 1) == Ok(e2)
  {
    WordEndAt(t, p, e1);
    WordEndAt(t, e1 + 1, e2);
  }

  /** Where the parts of `pre + s-r-u` sit. */
  lemma Layout(pre: string, s: string, r: string, u: string)
    ensures var t := pre + s + "-" + r + "-" + u;
      var p := |pre|; var e1 := p + |s|; var e2 := e1 + 1 + |r|;
      e2 < |t| && t[e1] == '-' && t[e2] == '-' &&
      t[p..e1] == s && t[e1 + 1..e2] == r && t[e2 + 1..] == u
  {
  }

  /** The match at `p` of a string laid out as words `s` and `r`, dashes, and then `u`. */
  lemma MatchParts(t: string, p: nat, e1: nat, e2: nat, k: nat, s: string, r: string, u: string)
    requires p <= e1 < e2 < |t| && t[e1] == '-' && t[e2] == '-'
    requires t[p..e1] == s && t[e1 + 1..e2] == r && t[e2 + 1..] == u
    requires IsWord(s) && IsWord(r)
    requires k <= |u| && AmountEnd(t, e2 + 1) == Ok(e2 + 1 + k)
    ensures MatchAt(t, p) == Ok((s, r, u[..k]))
  {
    assert forall j :: p <= j < e1 ==> t[j] == s[j - p];
    assert forall j :: e1 < j < e2 ==> t[j] == r[j - e1 - 1];
    WordsAt(t, p, e1, e2);
    MatchOf(t, p, e1, e2, e2 + 1 + k);
    assert t[e2 + 1..e2 + 1 + k] == u[..k];
  }

  /**
    A match tried at the start of `s-r-u`, after any prefix, for words `s` and `r`,
    has `s` and `r` as its word groups; its amount group is where `(\d+.\d+)` ends in `u`.
   */
  lemma MatchPieces(pre: string, s: string, r: string, u: string)
    requires IsWord(s) && IsWord(r) && AmountEnd(u, 0).Ok?
    ensures MatchAt(pre + s + "-" + r + "-" + u, |pre|) == Ok((s, r, u[..AmountEnd(u, 0).value]))
  {
    var head := pre + s + "-" + r + "-";
    var e1 := |pre| + |s|;
    var e2 := e1 + 1 + |r|;
    var k := AmountEnd(u, 0).value;
    AmountEndShift(head, u, 0);
    assert |head| == e2 + 1;
    assert AmountEnd(head + u, e2 + 1) == Ok(e2 + 1 + k);
    Layout(pre, s, r, u);
    MatchParts(head + u, |pre|, e1, e2, k, s, r, u);
  }

  /** The search on `s-r-u` stops at its start. */
  lemma SearchPieces(s: string, r: string, u: string)
    requires IsWord(s) && IsWord(r) && AmountEnd(u, 0).Ok?
    ensures SearchTrx(s + "-" + r + "-" + u) == Ok((s, r, u[..AmountEnd(u, 0).value]))
  {
    MatchPieces("", s, r, u);
    assert "" + s == s;
  }

  /** A well-formed transfer string is matched at its start, in full. */
  lemma SearchWellFormed(sender: string, receiver: string, amount: string)
    requires IsWord(sender) && IsWord(receiver) && ParseAmount(amount).Ok?
    ensures SearchTrx(sender + "-" + receiver + "-" + amount) == Ok((sender, receiver, amount))
  {
    AmountEndWhole(amount);
    SearchPieces(sender, receiver, amount);
    assert amount[..|amount|] == amount;
  }

  /**
    Wherever the strict parser accepts, the source's search finds the same two ids at
    the start of the string, and the rest of the string as the amount text, which
    reads as the same amount.
   */
  lemma SearchAgrees(t: string) returns (amount: string)
    requires ParseTrx(t).Ok?
    ensures SearchTrx(t) == Ok((ParseTrx(t).value.sender, ParseTrx(t).value.receiver, amount))
    ensures ParseAmount(amount) == Ok(ParseTrx(t).value.value)
  {
    var sender, receiver, whole, frac := ParseSound(t);
    amount := whole + "." + frac;
    AmountRegroup(sender, receiver, whole, frac);
    AmountComplete(whole, frac);
    SearchWellFormed(sender, receiver, amount);
  }

  /** Positions where no match starts are passed over by the search. */
  lemma {:induction false} SearchSkips(t: string, p: nat, q: nat)
    requires p <= q <= |t|
    requires forall j :: p <= j < q ==> MatchAt(t, j).Err?
    ensures SearchFrom(t, p) == SearchFrom(t, q)
    decreases q - p
  {
    if p < q {
      SearchSkips(t, p + 1, q);
    }
  }

  /** The search on `sender-head-d1 c d2-amount` takes `d1 c d2` for the amount text. */
  lemma ReceiverSplit(sender: string, head: string, d1: char, c: char, d2: char, amount: string)
    requires IsWord(sender) && IsWord(head)
    requires IsDigit(d1) && IsDigit(d2) && !IsDigit(c) && !IsLineTerminator(c)
    ensures SearchTrx(sender + "-" + (head + "-" + [d1, c, d2]) + "-" + amount)
         == Ok((sender, head, [d1, c, d2]))
  {
    var u := [d1, c, d2] + "-" + amount;
    assert sender + "-" + (head + "-" + [d1, c, d2]) + "-" + amount == sender + "-" + head + "-" + u;
    AmountEndShort(d1, c, d2, amount);
    SearchPieces(sender, head, u);
    assert u[..3] == [d1, c, d2];
  }

  /**
    A receiver id that is a word, a dash and three characters `d1 c d2` (two digits
    around a character that is neither a digit nor a line terminator) is split by the
    source's search: the string a client builds reads as a transfer to the word
    alone, whose amount text is `d1 c d2`. The strict parser rejects it. With
    receiver `bob-1z2`, five coins for `bob-1z2` are read as `std::stod("1z2")`,
    one coin, for `bob`.
   */
  lemma MisroutedReceiver(sender: string, head: string, d1: char, c: char, d2: char, value: nat)
    requires IsWord(sender) && IsWord(head)
    requires IsDigit(d1) && IsDigit(d2) && !IsDigit(c) && !IsLineTerminator(c)
    ensures SearchTrx(Encode(sender, head + "-" + [d1, c, d2], value)) == Ok((sender, head, [d1, c, d2]))
    ensures ParseTrx(Encode(sender, head + "-" + [d1, c, d2], value)) == Err(InvalidTrx)
  {
    var receiver := head + "-" + [d1, c, d2];
    ReceiverSplit(sender, head, d1, c, d2, FormatAmount(value));
    assert receiver[|head|] == '-';
    ParseEncoded(sender, receiver, value);
  }

  /**
    The search passes over a word that is followed by a character other than a dash,
    and continues right after that character.
   */
  lemma SkipHead(head: string, c: char, u: string)
    requires IsWord(head) && c != '-' && !IsWordChar(c)
    ensures SearchTrx(head + [c] + u) == SearchFrom(head + [c] + u, |head| + 1)
  {
    var t := head + [c] + u;
    var h := |head|;
    assert forall j :: 0 <= j < h ==> t[j] == head[j];
    assert t[h] == c;
    forall j | 0 <= j <= h
      ensures MatchAt(t, j).Err?
    {
      WordEndAt(t, j, h);
    }
    SearchSkips(t, 0, h + 1);
  }

  /** The search on `head c tail-receiver-amount` skips `head c` and matches the rest. */
  lemma SenderSplit(head: string, c: char, tail: string, receiver: string, amount: string)
    requires IsWord(head) && IsWord(tail) && IsWord(receiver) && !IsWordChar(c) && c != '-'
    requires ParseAmount(amount).Ok?
    ensures SearchTrx((head + [c] + tail) + "-" + receiver + "-" + amount) == Ok((tail, receiver, amount))
  {
    var t := head + [c] + tail + "-" + receiver + "-" + amount;
    var u := tail + "-" + receiver + "-" + amount;
    assert t == head + [c] + u;
    SkipHead(head, c, u);
    AmountEndWhole(amount);
    MatchPieces(head + [c], tail, receiver, amount);
    assert amount[..|amount|] == amount;
  }

  /**
    A sender id made of a word, a character that is neither a word character nor a
    dash, and a second word loses its head in the source's search: the string reads
    as coming from the second word. The strict parser rejects it. Sender `a.x` reads
    as `x`.
   */
  lemma MisreadSender(head: string, c: char, tail: string, receiver: string, value: nat)
    requires IsWord(head) && IsWord(tail) && IsWord(receiver) && !IsWordChar(c) && c != '-'
    ensures SearchTrx(Encode(head + [c] + tail, receiver, value))
         == Ok((tail, receiver, FormatAmount(value)))
    ensures ParseTrx(Encode(head + [c] + tail, receiver, value)) == Err(InvalidTrx)
  {
    var sender := head + [c] + tail;
    AmountComplete(NatToDigits(value / Unit), FixedDigits(value % Unit, Decimals));
    SenderSplit(head, c, tail, receiver, FormatAmount(value));
    assert sender[|head|] == c;
    ParseEncoded(sender, receiver, value);
  }
}
