# A single-node coin ledger, modelled in Dafny

The system is a toy cryptocurrency server with its clients.

- The `Server` keeps a table from client pointers to balances. It registers new clients with a starting balance of 5 coins. A requested id that is already taken gets four random digits appended.
- The server admits signed transfer strings `sender-receiver-amount` into the global list `pending_trxs`. A string is admitted when the signature verifies under the sender's public key and the sender's balance covers the amount.
- `mine` joins the pending strings into one mempool string. It then lets each client in turn try a random nonce. The first client whose SHA-256 hash of `mempool + nonce` holds `0000` within its first ten characters wins. That client is paid 6.25 coins, every pending transfer is applied in order without re-checking balances, and the pending list is emptied.
- A `Client` holds its id, its key pair and a pointer to its server. `transfer_money` refuses an unknown receiver. Otherwise it builds the canonical string with its own id as the sender, signs it and submits it.

The model has five modules:

- `Results`: the outcome of an operation that either completes or throws.
- `Decimal`: `std::to_string` and `std::stod` on amounts. An amount is a whole number of millionths, because `std::to_string(double)` prints six decimals.
- `Transaction`: the transfer value, its canonical string and `parse_trx`, twice. `SearchTrx` is the leftmost `std::regex_search` the source performs. `ParseTrx` is the whole-string match the pattern evidently intends, and the rest of the model uses it. The canonical string round-trips through `ParseTrx` exactly when both ids are words. Where `ParseTrx` accepts, `SearchTrx` agrees with it; some ids it rejects are misread by `SearchTrx` (see Findings).
- `ProofOfWork`: the difficulty test on a hash.
- `Ledger`:
  - the client table as two parallel sequences (`clients` in iteration order and `balances`);
  - the global pending list as a `TrxPool` object that the server shares;
  - the classes `Server` and `Client` with the source's operations as methods;
  - the commit as functions on sequences, with conservation and frame lemmas.

Crypto primitives (`crypto::signMessage`, `crypto::verifySignature`, `crypto::sha256`) are fields of the `Crypto.Primitives` value. They are passed to each operation that uses them, and nothing is assumed about them. Randomness becomes parameters:

- the four suffix digits;
- the position a new pointer takes in the map's iteration order;
- the key pair;
- the nonce each client draws.

`get_id` and `get_publickey` are the constant fields `Client.id` and `Client.publicKey`. `Client::sign` is `crypto.sign` applied to the private key, inside `Ledger.Client.TransferMoney`.

Behaviours of the code the model keeps:

- a new client starts with 5 coins (`clients[client_ptr] = 5`);
- `add_pending_trx` does not look the receiver up (only `transfer_money` does);
- no balance is re-checked at commit. `Ledger.DoubleSpendOverdraws` shows the consequence: two admitted copies of one transfer overdraw the sender, unless the sender wins the block;
- a suffixed id is not checked again for a collision. `Ledger.Server.AddClient` states the new id exactly, so a second collision shows up as two entries with one id.

## Model

| member | source | states |
|---|---|---|
| Decimal.NatToDigits | src/server.cpp:92 | `std::to_string` of a nonce is a non-empty run of digits with no leading zero |
| Decimal.NatToDigitsValue | src/server.cpp:92 | reading back the digits printed for `n` gives `n` |
| Decimal.FixedDigitsValue | src/client.cpp:30 | the six zero-padded decimals of an amount read back to its fractional part |
| Decimal.AmountRoundTrip | src/client.cpp:30 | `std::stod` of what `std::to_string` prints for an amount is that amount, exactly |
| Decimal.FormatAmount | src/client.cpp:30 | `std::to_string` of an amount is a numeral, a point and exactly six digits |
| Decimal.FractionValue | src/server.cpp:58 | the fractional digits read as less than one coin |
| Decimal.AmountValue | src/server.cpp:58 | `digits.digits` reads as at least the whole part's coins and less than one coin more |
| Decimal.DigitsValueBound | src/server.cpp:58 | `n` digits denote a number below ten to the `n` |
| Decimal.DigitString | src/server.cpp:15-17 | the suffix has one digit character per random digit, each denoting that digit |
| Transaction.Encode | src/client.cpp:30 | the canonical string holds the ids' dashes and two more, the separators |
| Transaction.ParseAmount | src/server.cpp:51-58 | an amount text that reads is worth its leading digit run in coins, plus less than one coin |
| Transaction.TakeField | src/server.cpp:51 | a `(\w+)-` step yields a non-empty word, and the input is that word, a dash and the rest |
| Transaction.ParseTrx | src/server.cpp:50-63 | the whole-string `parse_trx` either yields a sender and a receiver that are words, or fails with "Invalid trx!" |
| Transaction.AmountComplete | src/server.cpp:58 | `digits.digits` reads as the amount it denotes |
| Transaction.AmountSound | src/server.cpp:51-58 | an amount that reads has the shape `digits.digits`, and the value is what those digits denote |
| Transaction.ParseComplete | src/server.cpp:51-59 | every `word-word-digits.digits` string parses to its two words and its amount |
| Transaction.ParseSound | src/server.cpp:51-62 | every string that parses has that shape, and the parse yields those parts |
| Transaction.ParsedHasTwoDashes | src/server.cpp:51 | a string that parses holds exactly two dashes |
| Transaction.EncodedParsesOnlyWords | src/client.cpp:30 | if the string `transfer_money` builds parses under the whole-string parser, both ids are words |
| Transaction.ParseEncoded | src/client.cpp:30 | the string `transfer_money` builds parses back, under the whole-string parser, to the same sender, receiver and amount when both ids are words, and throws "Invalid trx!" otherwise |
| Transaction.EncodedWordsParse | src/client.cpp:30 | the string built from word ids parses back to the same sender, receiver and amount |
| Transaction.RoundTrip | src/client.cpp:30 | decoding the canonical encoding of a transfer with word ids gives the transfer back |
| Transaction.WordEnd | src/server.cpp:51 | `\w+` from a position covers word characters only and stops at the first other character |
| Transaction.DigitEnd | src/server.cpp:51 | `\d+` from a position covers digits only and stops at the first other character |
| Transaction.AmountEnd | src/server.cpp:51 | where `(\d+.\d+)` tried at a position ends: at least three characters, starting and ending with a digit, or no match |
| Transaction.WordDash | src/server.cpp:51 | a `(\w+)-` step ends on a dash after a non-empty run of word characters, or fails |
| Transaction.MatchAt | src/server.cpp:51-55 | a match at one position yields two words and an amount text of at least three characters, or none |
| Transaction.SearchTrx | src/server.cpp:50-63 | `parse_trx` as written yields two words and an amount text of at least three characters, or throws "Invalid trx!" |
| Transaction.SearchAgrees | src/server.cpp:50-63 | wherever the whole-string parser accepts, the search yields the same ids and an amount text reading as the same amount |
| Transaction.MisroutedReceiver | src/server.cpp:50-63 | a receiver `word-d1 c d2` makes the search yield the word as receiver and `d1 c d2` as amount text, while the whole-string parser throws |
| Transaction.MisreadSender | src/server.cpp:50-63 | a sender `word c word2` makes the search yield `word2` as sender, while the whole-string parser throws |
| ProofOfWork.ZeroRunFound | src/server.cpp:95-96 | the scan of the window finds four zeros exactly when four consecutive zeros start inside the window |
| ProofOfWork.MeetsDifficulty | src/server.cpp:95-96 | `.*0000.*` matches the first ten characters exactly when four consecutive zeros start inside them and none of them is a line terminator, which `.` does not match |
| ProofOfWork.DifficultyWindow | src/server.cpp:95-96 | characters after the tenth never change whether a hash meets the difficulty |
| Ledger.IndexOf | src/server.cpp:25-34 | the first position whose client has the id; it is in range exactly when the id is registered, and no earlier client has the id |
| Ledger.DecodedKnown | src/server.cpp:104-106 | decoded pending strings name registered senders and receivers |
| Ledger.TotalUpdate | src/server.cpp:99 | replacing one balance changes the sum of all balances by the difference |
| Ledger.TotalAppend | src/server.cpp:21 | the sum of two tables laid end to end is the sum of their sums |
| Ledger.InsertTotal | src/server.cpp:21 | inserting a client with its balance adds exactly that balance to the sum |
| Ledger.InsertRegistered | src/server.cpp:20-21 | after an insertion an id is registered exactly when it was before or is the new client's |
| Ledger.InsertDistinct | src/server.cpp:20-21 | inserting a pointer that is not yet a key keeps every key once |
| Ledger.InsertResolvable | src/server.cpp:21 | registering a client keeps every pending transfer applicable |
| Ledger.AppendResolvable | src/server.cpp:75 | appending a string that parses to a transfer between registered clients keeps the pending list applicable |
| Ledger.Move | src/server.cpp:105-106 | one transfer debits the sender's entry, credits the receiver's, and leaves every other entry unchanged |
| Ledger.ApplyTransfer | src/server.cpp:104-106 | applying one pending transfer keeps the sum of all balances |
| Ledger.ApplyAll | src/server.cpp:101-107 | applying all pending transfers keeps the sum of all balances |
| Ledger.Committed | src/server.cpp:99-107 | a committed block adds exactly the reward to the sum of all balances |
| Ledger.Joined | src/server.cpp:82-85 | every pending string sits in the mempool string right after the strings before it |
| Ledger.JoinedGrows | src/server.cpp:82-85 | appending one more string keeps every earlier string where it was |
| Ledger.Solves | src/server.cpp:91-96 | a winning nonce's hash holds four consecutive zeros within its first ten characters |
| Ledger.MoveConserves | src/server.cpp:105-106 | one transfer keeps the sum of all balances |
| Ledger.ApplyAllStep | src/server.cpp:101-107 | applying one more pending transfer moves its amount from its sender's entry to its receiver's |
| Ledger.ApplyAllUntouched | src/server.cpp:101-107 | an entry that no pending transfer names keeps its balance |
| Ledger.CommitUntouched | src/server.cpp:97-109 | after a commit an entry that no pending transfer names holds its old balance, plus the reward if it is the winner's |
| Ledger.ApplyTwice | src/server.cpp:101-107 | applying one transfer twice debits its sender twice its amount |
| Ledger.DoubleSpendOverdraws | src/server.cpp:99-107 | a sender that can cover one transfer but not two, had it admitted twice and does not win the block, ends the block with a negative balance |
| Ledger.AppendDigits | src/server.cpp:15-17 | the loop appends the decimal rendering of each random digit to the id |
| Ledger.TrxPool.constructor | src/server.cpp:5 | the pending list starts empty |
| Ledger.Server.constructor | src/server.cpp:7 | a new server has no clients and shares the given pending list |
| Ledger.Server.GetClient | src/server.cpp:25-34 | null exactly when no client has the id; otherwise the first client in iteration order with that id |
| Ledger.Server.GetWallet | src/server.cpp:36-48 | 0 for an unknown id; otherwise the balance of the first client in iteration order with that id |
| Ledger.Server.AddClient | src/server.cpp:9-23 | a taken id gets the four digits appended; the fresh client enters the table with 5 coins, nothing else changes, the sum grows by 5 coins, and pending transfers stay applicable |
| Ledger.Server.AddPendingTrx | src/server.cpp:65-79 | throws "Invalid trx!" exactly when the string does not parse; otherwise appends it exactly when the signature verifies under the sender's key and the sender's balance covers the amount; balances never change |
| Ledger.Server.Digest | src/server.cpp:82-85 | the mempool string is every pending string, concatenated in list order |
| Ledger.Server.FindWinner | src/server.cpp:89-97 | the winner is the first client in iteration order whose nonce makes the hash meet the difficulty; no winner means that no client's nonce does |
| Ledger.Server.Commit | src/server.cpp:97-109 | the winner gains the reward, then every pending transfer is applied in order with no solvency check, and the pending list is emptied |
| Ledger.Server.MineRound | src/server.cpp:81-116 | on success the first winning client's nonce is returned and the block is committed; otherwise nothing changes |
| Ledger.Client.constructor | src/client.cpp:5-7 | a client holds its id, its server and the generated key pair |
| Ledger.Client.GetWallet | src/client.cpp:17-19 | a client's wallet is what the server reports for its id: 0 when unknown, else the first matching entry |
| Ledger.Client.TransferMoney | src/client.cpp:21-33 | an unknown receiver gives false with no effect. Otherwise the call throws exactly when an id is not a word. It succeeds exactly when the signature `crypto::signMessage` makes with the private key over the canonical string verifies and the sender's balance covers the amount, and it appends exactly that string |

## Left out

- Transaction.ParseEncoded: stated for the whole-string parser `ParseTrx`. The source's `regex_search` (`SearchTrx`) does not throw for every non-word id: it accepts some of them and misreads them (see Findings).
- Transaction.EncodedParsesOnlyWords: stated for the whole-string parser `ParseTrx`; under `SearchTrx` a string built from non-word ids can still match (see Findings).
- Ledger.Client.TransferMoney: "throws exactly when an id is not a word" holds for `ParseTrx`, which the model uses. With the source's `regex_search`, some such ids are admitted under another sender or receiver (see Findings).
- `std::stod` on the amount text `SearchTrx` yields is not modelled: only texts that `ParseAmount` reads are given a value. `stod` reading a prefix such as `1z2` as 1, an exponent or a hexadecimal form is left out.
- `SearchTrx` and the Ledger: the ledger admits and commits strings through `ParseTrx`; `SearchTrx` is related to it by `SearchAgrees`, `MisroutedReceiver` and `MisreadSender` only.
- Amounts are exact non-negative millionths instead of `double`. Rounding is not modelled. A negative amount is not modelled. Fractional digits beyond the sixth are dropped when parsing.
- Signing, signature verification and SHA-256 are parameters about which nothing is assumed. `crypto::generate_key` is replaced by the key pair passed to the constructor.
- `std::random_device`, `mt19937` and `generate_nonce` (src/client.cpp:35-40) are replaced by the digits, slot and nonces passed in. The nonce's 64-bit range is not enforced.
- Ledger.Server.MineRound: models one pass of `mine`'s `while (true)` loop. Repeated passes, and the non-termination when no client ever wins or there are no clients, are not modelled.
- The console output of `mine` and `show_wallets` is left out.
- Ledger.Server.AddPendingTrx: requires the sender to be registered. The source dereferences a null pointer otherwise.
- Ledger.Server.Commit: requires every pending string to parse and name two registered clients. For a string admitted directly with an unknown receiver, the source inserts a null key into the map at commit. That case is not modelled.
- ProofOfWork.MeetsDifficulty: a hash shorter than ten characters is read whole. The source would read past its end.
- Concurrency around `pending_trxs` is not modelled. Each method runs alone.

## Findings

| source | as written | input that shows it | evidently intended | confidence | as-written member | corrected member |
|---|---|---|---|---|---|---|
| src/server.cpp:51-58 | `std::regex_search` finds `(\w+)-(\w+)-(\d+.\d+)` anywhere in the string, so an id that is not a word is split, and the parse does not throw | `transfer_money("bob-1z2", 5)` from `alice` builds `alice-bob-1z2-5.000000`, read as 1 coin (`stod("1z2")`) from `alice` to `bob`; sender `a.x` builds `a.x-bob-5.000000`, read as coming from `x` | `parse_trx` yields the fields `transfer_money` encoded, or throws "Invalid trx!" | not executed | Transaction.SearchTrx, with Transaction.MisroutedReceiver and Transaction.MisreadSender | Transaction.ParseTrx, with Transaction.ParseEncoded |
