# Museum shop core in Dafny

This project models the customer shopping path of a small Flask museum
application and the SQL query-file loader it ships with.

- The session cart is a dictionary from artifact-id strings to quantities.
  - `cart_add` adds `max(1, qty)` to one entry.
  - `cart_update` applies every `qty_<id>` form field: it sets the
    quantity, drops the entry, or leaves it alone.
- `cart_checkout` runs these steps in order:
  - normalises the cart;
  - reads the requested artifacts into a snapshot;
  - validates every entry against that snapshot;
  - requires a logged-in customer;
  - for each entry, decrements the stock and appends a purchase record paid by `"Card"`;
  - clears the cart.
- `allowed_file` accepts an upload whose last extension, lower-cased, is
  in `ALLOWED_EXTENSIONS` (`png`, `jpg`, `jpeg`, `webp`).
- `load_named_queries` splits an SQL file at header lines
  `-- name: <title>` and maps each non-empty title to the non-empty,
  stripped query after it.

## Layout

- `wrappers.dfy`, module `Wrappers`: `Option`.
- `text.dfy`, module `PyText`: the pieces of Python's `str` and `int` the
  handlers rely on.
  - `str.strip` and the `str.isspace` character set.
  - `int(str)`: surrounding whitespace, an optional sign, ASCII digits.
  - `str(int)`, with its round trip through `int()`.
  - `str.startswith` and ASCII `str.lower`.
- `config.dfy`, module `Config`: `ALLOWED_EXTENSIONS`.
- `uploads.dfy`, module `Uploads`: `allowed_file`.
- `cart_store.dfy`, module `CartStore`: the cart dictionary as an ordered
  list of entries with unique keys.
  - `Put` and `Pop` keep Python's insertion order.
  - `cart_add`'s quantity rule.
  - `cart_update`'s field rule, over a whole form.
- `checkout.dfy`, module `Checkout`: snapshot, validation and the
  outcome, all as functions of the inventory, cart and customer.
  - The stock updates and purchase records a completed checkout produces.
  - Worked examples.
- `shop.dfy`, module `Shop`: class `Store`, which holds the Artifact table,
  the Purchase table and the session cart.
  - The three handlers are methods that update these fields.
  - Its invariant `Valid`: the cart's keys are distinct and every quantity is positive.
  - Each method is proved against the functions above.
- `query_loader.dfy`, module `QueryLoader`:
  - the `re.split` of the header pattern, line by line;
  - the loop that fills the dictionary, as a method;
  - the lemmas about the result.

Modelling decisions:
- Money is whole cents and a purchase total is `price * qty`. The
  source stores prices as floats and rounds to two decimals.
- A checkout whose cart holds a key that `int()` rejects crashes in the
  source, before the database is touched. Here that is the outcome
  `BadCartKey`.
- A missing customer (`RuntimeError` in the source) is the outcome
  `MissingCustomer`. In both outcomes nothing changes.
- Form fields arrive as a list of (name, value) pairs with distinct
  names, as `request.form.items()` yields them.

## Model

| member | source | states |
|---|---|---|
| Uploads.AllowedExtension | main.py:15 | `ext.lower() in ALLOWED_EXTENSIONS`: AllowedExtensionIgnoresCase states it as membership up to case |
| Uploads.SameIgnoringCase | main.py:15 | spelling a word up to case, each letter in either case: the reference for the lower-cased comparison |
| Uploads.LowerIffSameIgnoringCase | main.py:15 | lower-casing gives a word without upper-case letters exactly when the input spells that word up to case |
| Uploads.AllowedExtensionIgnoresCase | config.py:21 | an extension is allowed exactly when it spells `png`, `jpg`, `jpeg` or `webp` in any mix of upper and lower case |
| Uploads.AllowedFile | main.py:14-15 | accepted exactly when the name has a dot and the text after its last dot, lower-cased, is an allowed extension |
| Uploads.LastDot | main.py:15 | finds the last `.` of the name, after which there is none; absent exactly when the name has no `.` (the `rsplit('.', 1)` split point) |
| Uploads.BareExtensionRefused | main.py:15 | a name without a dot such as `png` is refused |
| Uploads.LastExtensionLowerCased | main.py:15 | `a.b.PNG` is accepted: only the last extension counts, compared in lower case |
| Uploads.InnerExtensionIgnored | main.py:15 | `photo.png.exe` is refused |
| PyText.Strip | query_loader.py:9-10 | `str.strip`: never longer than its input, empty exactly when the input is all whitespace, otherwise starts and ends with a non-space |
| PyText.StripIsTrimmed | query_loader.py:9-10 | the stripped text is a contiguous slice of the input with only whitespace before and after it |
| PyText.ParseIntStrips | main.py:252 | `int()` ignores surrounding whitespace: it reads the numeral of the stripped text |
| PyText.ParseInt | main.py:211 | `int(s)`: it strips its argument and reads a numeral, as ParseIntStrips states; ParseIntToString gives its round trip with `str` |
| PyText.ParseNumeral | main.py:211 | a sign-and-digits numeral that parses ends in a digit |
| PyText.NatToString | main.py:213 | `str(n)` of a non-negative number is decimal digits with no leading zero, so a key such as `07` is never `str` of an id |
| PyText.IntToString | main.py:213 | `str(n)` is non-empty, has no `+`, ends in a digit, and starts with `-` exactly for negative `n` |
| PyText.IntToStringCanonical | main.py:213 | after an optional `-`, `str(n)` is decimal digits with no leading zero |
| PyText.ParseIntToString | main.py:213 | `int(str(n)) == n` for every integer |
| PyText.IntToStringInjective | main.py:288-289 | distinct ids have distinct `str()` keys |
| PyText.NatToStringValue | main.py:213 | the decimal digits of `str(n)` denote `n` |
| PyText.StripUnspaced | query_loader.py:9-10 | stripping text that neither starts nor ends with whitespace leaves it unchanged |
| PyText.Lower | main.py:15 | `str.lower` on ASCII: what it makes of the extension test is stated by AllowedExtensionIgnoresCase |
| PyText.LowerChar | main.py:15 | the lower case of one character, used by `Lower` |
| PyText.IsSpace | query_loader.py:9-10 | the whitespace that `str.strip` and `int()` skip, as StripIsTrimmed and ParseIntStrips state |
| PyText.StartsWith | main.py:249 | `field.startswith('qty_')`: ApplyFormFind states that only field `qty_k` decides key `k` |
| CartStore.Find | main.py:213 | `dict.get`: absent exactly when no entry has the key; otherwise the value of that key's entry |
| CartStore.FindOrZero | main.py:213 | `cart.get(k, 0)`: 0 when no entry has the key; with unique keys, the quantity of the entry that has it |
| CartStore.IndexOf | main.py:213 | the position of the key's entry, absent exactly when there is none |
| CartStore.Put | main.py:213 | `cart[k] = v`: keys stay unique, `k` now maps to `v`, every other key keeps its value, an existing key keeps its place and a new key goes at the end |
| CartStore.Pop | main.py:254 | `cart.pop(k, None)`: keys stay unique, `k` is gone, every other key keeps its value, a missing key changes nothing, and otherwise exactly one entry is removed in place |
| CartStore.AddQuantity | main.py:211 | `max(1, int(qty))` with 1 for a missing field: absent exactly when `int()` rejects the field, and always at least 1 |
| CartStore.ApplyField | main.py:249-258 | one form field keeps the keys unique; its effect on each key is what ApplyFormFind states |
| CartStore.ApplyForm | main.py:248-258 | the whole form, field by field in form order, keeps the keys unique |
| CartStore.PutKeepsPositive | main.py:213 | storing a positive quantity keeps every quantity positive |
| CartStore.FormValue | main.py:249-257 | the value submitted under a field name: FormValueFirst and FormValueNone state it |
| CartStore.FormValueFirst | main.py:249-257 | a name has a value exactly when some field carries it, and it is the value of the first such field |
| CartStore.FormValueNone | main.py:249-257 | a name no field carries has no value |
| CartStore.FieldEffect | main.py:249-257 | what field `qty_k` does to key `k`, as ApplyFormFind states: nothing if absent or unparsable, removal if at most 0, the new quantity otherwise |
| CartStore.ApplyFormFind | main.py:248-258 | after the whole form, key `k` is decided by the value of field `qty_k` alone: unchanged if absent or unparsable, removed if at most 0, set otherwise |
| CartStore.ApplyFormEffect | main.py:248-258 | after the whole form every key ends as its own `qty_` field decides, and positivity is kept |
| CartStore.ApplyFormPositive | main.py:253-256 | an update never stores a quantity below 1 |
| Shop.Store.CartAdd | main.py:211-213 | succeeds exactly when the quantity parses; then the cart is `Put` of the old quantity (0 if absent) plus `max(1, qty)` under `str(id)`, other keys unchanged; otherwise nothing changes; the tables never change |
| Shop.Store.CartUpdate | main.py:247-258 | the loop over the form leaves the cart equal to the form applied field by field; each key ends as `ApplyFormFind` says; positivity is kept; the tables never change |
| Checkout.Normalize | main.py:269-270 | the entries with a positive quantity, by membership, no more of them than the cart has, with unique keys |
| Checkout.NormalizeAppend | main.py:270 | normalising a concatenation normalises each part in place, so the filter keeps cart order |
| Checkout.NormalizePositive | main.py:270 | a cart with only positive quantities, as every `Store` cart has, is unchanged by normalisation |
| Checkout.FirstUnparsable | main.py:275-277 | none exactly when every key parses with `int()`; otherwise a key that does not |
| Checkout.CartIds | main.py:277 | every parsed key is among the ids that are fetched |
| Checkout.CartIdsExactly | main.py:277 | the ids fetched are exactly the parsed keys |
| Checkout.Snapshot | main.py:288-294 | each fetched row is filed under `str(Artifact_ID)`, and every snapshot key is the canonical spelling of a fetched id that exists |
| Checkout.SnapshotLookup | main.py:299 | `snapshot.get(k)` finds a row exactly when `k` is `str(id)` of an id that exists |
| Checkout.EntryProblems | main.py:299-303 | at most one problem for an entry, and none exactly when its key is in the snapshot with enough stock |
| Checkout.ProblemsOf | main.py:297-303 | no more problems than entries |
| Checkout.ProblemsAt | main.py:298-303 | entry `i`'s own problem sits at its place, between the problems of the entries before and after it |
| Checkout.ProblemsOfAppend | main.py:298 | validation reports every entry, it never stops at the first problem |
| Checkout.NoProblemsIff | main.py:297-305 | no problems exactly when every key is in the snapshot with enough stock |
| Checkout.Validate | main.py:297-303 | the validation loop returns exactly the problem list of the cart |
| Checkout.InventoryProblems | main.py:299-303 | one entry's problem against the inventory; SnapshotProblems equates it with the snapshot check |
| Checkout.InventoryProblemsOf | main.py:297-303 | the problems of every entry against the inventory, in cart order: SnapshotProblems and CheckoutProblems state its use |
| Checkout.SnapshotProblems | main.py:288-303 | validating a cart suffix against the snapshot of its ids equals validating it against the inventory |
| Checkout.CheckoutProblems | main.py:288-305 | validating against the snapshot equals validating against the inventory; a refusal carries that list |
| Checkout.ValidIffStocked | main.py:296-305 | for a cart whose keys parse, validation finds no problem exactly when every entry names an existing artifact by `str(id)` with enough stock |
| Checkout.HasCustomer | main.py:310-311 | `if not customer_id`: a customer is an id that is present and not 0 |
| Checkout.Decide | main.py:269-312 | the cart is reported empty exactly when its normalised form is; a bad key is the key of a positive entry that `int()` rejects; a refusal carries at least one problem; completion needs a customer |
| Checkout.CheckoutSucceedsIff | main.py:269-312 | a checkout completes exactly when the normalised cart is non-empty, every key is the canonical `str` of an existing artifact with enough stock, and there is a customer |
| Checkout.EmptyCartIdempotent | main.py:269-273 | checking out an empty (cleared) cart reports an empty cart |
| Checkout.StockUpdate | main.py:320-324 | decrementing one artifact's stock keeps the set of artifacts |
| Checkout.Decremented | main.py:314-324 | the stock updates of the whole loop keep the set of artifacts; DecrementedStock gives each stock |
| Checkout.DecrementedStock | main.py:314-324 | after the loop, each artifact's stock is reduced by the quantities requested for it and nothing else changes |
| Checkout.RequestedIsEntry | main.py:314-315 | in a cart with unique canonical keys, the quantity requested for id `n` is the entry for `str(n)` |
| Checkout.LineItem | main.py:326-338 | the record one entry inserts; RecordFields states its customer, id, quantity, total and payment |
| Checkout.Records | main.py:314-338 | one purchase record per entry, in cart order, each the line item of its entry |
| Checkout.RecordFields | main.py:326-338 | record `i` holds the customer, entry `i`'s parsed id and quantity, price times quantity, and `"Card"` |
| Checkout.RecordsSnoc | main.py:314-338 | processing one more entry appends exactly its record |
| Checkout.RecordsConserve | main.py:314-338 | the units the new records sell of an artifact equal the quantity requested for it |
| Checkout.UnitsSoldAppend | main.py:327-338 | units sold add up over appended ledgers |
| Checkout.CompletedCart | main.py:269-312 | a completed checkout had parsable, unique, canonical keys, a priced snapshot, enough stock for every entry and a customer |
| Checkout.CheckoutStock | main.py:314-324 | on completion every artifact keeps its title and price, its stock falls by its cart quantity, and stays non-negative if it was in the cart |
| Checkout.CheckoutConserves | main.py:314-338 | on completion the stock an artifact loses equals the units the new purchase records sell of it |
| Checkout.DecideOneEntry | main.py:297-312 | one entry for an artifact with five in stock completes exactly when it asks for at most five, and is refused with one `OnlyLeft` problem otherwise |
| Checkout.CompletedExample | main.py:269-343 | three of five at 1000 completes, leaves 2 in stock and records one purchase totalling 3000 |
| Checkout.RejectedExample | main.py:297-307 | ten of five is refused with one "only 5 left (you requested 10)" problem |
| Shop.Store.Assess | main.py:269-312 | the steps before the purchase loop reach the outcome `Decide` gives and change nothing; normalising a store's cart leaves it as it is; on completion there is a customer and the snapshot prices every normalised entry |
| Shop.Store.Checkout | main.py:263-343 | the outcome is `Decide` of the old state; any other outcome than completion changes nothing; completion reaches `Purchased`: the stock decremented by the normalised cart, its purchase records appended, and the cart cleared |
| Shop.Store.RecordPurchases | main.py:314-338 | the purchase loop leaves the stock decremented by the cart and the ledger extended by its records, in order |
| Shop.LedgerStep | main.py:326-338 | inserting the current entry's record leaves exactly the records of the later entries still to insert |
| QueryLoader.LineEnd | query_loader.py:6 | the end of a line (for `$` and `.` under `re.M`) is the next newline or the end of the text |
| QueryLoader.LineEndFirst | query_loader.py:6 | no newline comes before the end of the line |
| QueryLoader.Capture | query_loader.py:6 | the captured title is non-empty and no longer than the rest of the line after `name:` |
| QueryLoader.CaptureShape | query_loader.py:6 | the capture is a suffix of that rest preceded only by whitespace, and starts with a non-space unless it is one character |
| QueryLoader.NameField | query_loader.py:6 | a match after `--` yields a non-empty title that fits in the rest of the line after `name:` |
| QueryLoader.NameFieldIff | query_loader.py:6 | the rest after `--` matches with title `g` exactly when it is whitespace, `name:`, then a non-empty rest whose capture is `g` |
| QueryLoader.HeaderGroup | query_loader.py:6 | a header line starts with `--`, is longer than `--name:`, and captures a non-empty title |
| QueryLoader.HeaderGroupIff | query_loader.py:6 | a line is a header with title `g` exactly when it is `--`, whitespace, `name:`, then a rest of the line whose capture is `g` |
| QueryLoader.LineMatch | query_loader.py:6 | at most one match per line; a match spans the whole line from its start |
| QueryLoader.FindHeaders | query_loader.py:6 | the matches lie in the text in order without overlap, none before the start of the scan |
| QueryLoader.FindHeadersSound | query_loader.py:6 | each match is a whole line at a line start that the pattern matches, with its capture |
| QueryLoader.FindHeadersComplete | query_loader.py:6 | every header line on or after the start of the scan is found |
| QueryLoader.Headers | query_loader.py:6 | the header matches of the whole text lie in order, without overlap |
| QueryLoader.HeadersSound | query_loader.py:6 | each header of the text is a line the pattern matches, with its capture |
| QueryLoader.HeadersComplete | query_loader.py:6 | every header line of the text is found |
| QueryLoader.Body | query_loader.py:6 | the text between the end of header `k`'s line and the next header, or the end of the text; RegexSplit places it after header `k`'s title |
| QueryLoader.SplitTail | query_loader.py:6 | from header `k` on, each header's capture followed by the text up to the next header |
| QueryLoader.RegexSplit | query_loader.py:6 | `re.split` yields the text before the first header, then for each header its capture and the text up to the next header |
| QueryLoader.Pairs | query_loader.py:8-10 | pair `k` is `parts[2k+1]` and `parts[2k+2]`, and every odd index below `len(parts) - 1` is visited |
| QueryLoader.Stripped | query_loader.py:9-10 | one stripped pair per pair; SectionOfHeader states its contents |
| QueryLoader.Sections | query_loader.py:8-10 | the stripped pairs of the split, as SectionOfHeader states |
| QueryLoader.SectionOfHeader | query_loader.py:6-10 | pair `k` holds the stripped capture of header `k` and the stripped text after it; one pair per header |
| QueryLoader.NamedQueries | query_loader.py:4-13 | the dictionary of the text, whose keys QueryTitles states |
| QueryLoader.LoadNamedQueries | query_loader.py:4-13 | the loader returns the dictionary of the text |
| QueryLoader.Catalog | query_loader.py:7-13 | `names[title] = sql` for each kept pair, in order; CatalogKeys, CatalogLastWins and CatalogNonEmpty state its keys and values |
| QueryLoader.CollectNames | query_loader.py:7-13 | the loop over odd indices fills the dictionary the kept pairs assign, in order |
| QueryLoader.CatalogKeys | query_loader.py:11-12 | a title is a key exactly when some pair with that title has both parts non-empty |
| QueryLoader.CatalogLastWins | query_loader.py:12 | a repeated title keeps the query of its last kept occurrence |
| QueryLoader.CatalogNonEmpty | query_loader.py:11 | no stored title or query is empty |
| QueryLoader.QueryTitles | query_loader.py:6-12 | a title is a key exactly when some header of the text captures it (stripped) and the text after that header is not blank |
| QueryLoader.NoHeaderNoQueries | query_loader.py:6-13 | text with no header line yields an empty dictionary |
| QueryLoader.PreambleIgnored | query_loader.py:8 | the text before the first header never contributes a query |
| QueryLoader.OneQueryExample | query_loader.py:4-13 | `-- name: q` then `SELECT 1` yields exactly `{"q": "SELECT 1"}` |

## Left out

- Flask routing, the role checks at the top of each handler, flash messages, redirects and templates: they do not change the cart or the tables.
- The `FOR UPDATE` row locks, concurrent sessions and transactions (db.py is not part of this model): each checkout runs alone, start to finish.
- How the SQL placeholders and parameters are built from the cart keys: the rows fetched are those of the parsed ids. A key such as `-3` that would make the placeholder `:id-3` invalid SQL is not modelled as a database error.
- Floating-point prices and `round(price * qty, 2)`: money is whole cents, so the total is exact.
- The purchase timestamp and any columns the Purchase insert leaves to the database.
- `cart_view`, `save_image`, uploads on disk, artifact deletion and archiving, exhibitions, and the admin and staff pages: outside the customer shopping path.
- How the session is serialised between requests: the cart is the list of entries in insertion order. When the session cookie's JSON serialiser sorts keys, as Flask's default JSON provider does, a cart stored in an earlier request is read back in sorted key order. The source then validates and records purchases in that order, so the order of the problems and of the purchase records can differ from the model's.
- `int()` of text with underscores (`1_000`) or non-ASCII digits: the model parses an optional sign and ASCII digits, after stripping whitespace.
- Upper/lower case outside ASCII: `Lower` maps only `A`-`Z`. This does not change which names `AllowedFile` accepts, since no character outside ASCII lower-cases to a letter of `png`, `jpg`, `jpeg` or `webp` alone.
- Shop.Store.Checkout: a database failure while the loop is running is not modelled; the loop always completes.
- QueryLoader.HeaderGroup: the regular expression's `\s` can also match a newline, so Python accepts a header split over two lines (`--` on one line, `name: t` on the next), and a `name:` followed only by whitespace captures the next line. The model matches a header within one line, and a `name:` followed only by whitespace captures that whitespace's last character.
- Reading the query file from disk (`Path.read_text`): the loader takes the file's text.
