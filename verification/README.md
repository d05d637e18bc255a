# LinkingSystemTransformer name parser and identity roster, in Dafny

LinkingSystemTransformer reads a DVD Profiler collection, gives every distinct
cast and crew member a numeric id, and writes one cast sheet per profile in
which each credited-as text is split into first, middle and last name. This
project models the two pieces of logic behind that:

* **The name parser** (`ParsePersonName` and `CheckForQuotes`). A stage name is
  kept whole. Otherwise dots are normalised, spaces inside matched quotes are
  masked with the placeholder `#SpacePlaceHolder#`, and the text is split on
  spaces. A right-to-left scan over known suffixes and last-name particles then
  finds where the last name starts. A left-to-right shift moves past leading
  first-name particles. The fields are the trimmed space-joins of consecutive
  token spans.
* **The identity roster** (`PersonHashtable`, `Hashtable<TKey>.Add`,
  `PersonKey`, `FillDynamicHash`). Persons are keyed by last, first and middle
  name and birth year. A key already present is skipped. A new key gets the
  value of a counter that starts at 1 and then moves on by one.

Modules:

* `Text` (`text.dfy`): ASCII lower-casing, trimming, `Split` and `Join`,
  left-to-right `Replace`, placeholder masking and restoring, and `IndexOf`.
* `Quotes` (`quotes.dfy`): `CheckForQuotes`, written step by step like the
  recursive original. It is proved equal to `Mask`, a one-pass reference with an
  open/closed flag.
* `Names` (`names.dfy`): dot normalisation, tokens, the two scan loops as
  methods with the original's flags, and the closed-form boundaries they are
  proved to compute (`Segment`). Also assembly, the parser method and two
  worked examples.
* `Roster` (`roster.dfy`): keys, hash, the insertion-ordered roster with its
  counter, `FillDynamicHash`, and the Phase 3 loops. `Dedup`, the distinct
  persons in first-seen order, is the reference the roster is proved to number.
* `Credits` (`credits.dfy`): the cast-sheet loop of Phase 4, with its lookups
  and its choice between the structured name and the parsed credited-as text.

Some behaviours of `ParsePersonName` that a reader might not expect:

* The stage-name test lower-cases the untrimmed input. A stage name with
  surrounding spaces is therefore not recognised, and a recognised one is
  returned exactly as written.
* When the tokens are "Martin", "Luther", "King", "Jr." and the suffix list
  holds "jr.", the fields are first name "Martin", middle name "Luther" and
  last name "King Jr." (`Names.SuffixExample` for the boundaries,
  `Names.SuffixExampleFields` for the three strings). The scan sets the
  middle-name start to 1 as soon as it meets a non-particle left of the last
  name, so everything between token 0 and the last name is a middle name.
* `canBePrefix` is never reset. So a particle is still taken into the last name
  after a non-particle has been met. With tokens "A van B C", the middle-name
  start and the last-name start both end at 1. The equality test then cancels
  the middle name, and the last name is "van B C".

## Model

| member | source | states |
|---|---|---|
| Text.Lower | LinkingSystemTransformer/Program.cs:230 | `ToLower` keeps the length, turns each upper-case ASCII letter into the same letter in lower case, keeps every other character, and leaves no upper-case ASCII letter. |
| Text.Trim | LinkingSystemTransformer/Program.cs:243-248 | The result has no whitespace at either end. It is empty only when the input is all whitespace; otherwise it is the input between the first and last non-whitespace character. |
| Text.TrimKeepsCount | LinkingSystemTransformer/Program.cs:243-248 | Trimming removes only whitespace: every other character keeps its number of occurrences. |
| Text.Split | LinkingSystemTransformer/Program.cs:237 | `String.Split(char)` keeps empty fragments: there is one more fragment than separators, and no fragment holds the separator. |
| Text.SplitJoin | LinkingSystemTransformer/Program.cs:237-252 | Joining the fragments of a split with the separator gives the input back. |
| Text.SpaceJoinIsJoin | LinkingSystemTransformer/Program.cs:340-367 | Appending `" " + token` for every token, as the assembly loops do, gives a space followed by the tokens joined with single spaces. |
| Text.RestoreRemovesPlaceholders | LinkingSystemTransformer/Program.cs:256 | After placeholders are replaced by spaces, no placeholder is left. |
| Text.RestoreJoin | LinkingSystemTransformer/Program.cs:252-276 | Restoring each token and then joining with spaces equals restoring the joined text. |
| Text.IndexOf | LinkingSystemTransformer/Program.cs:380-384 | `String.IndexOf(c, start)`: -1 when `c` does not occur from `start` on, otherwise the first position at or after `start` holding `c`. |
| Quotes.CheckForQuotes | LinkingSystemTransformer/Program.cs:374-414 | The text before the start index is untouched. The rest is rewritten exactly as the one-pass reference `Mask` reads it. The recursion ends because the number of quote characters from the start index drops by two per step. |
| Quotes.PairStep | LinkingSystemTransformer/Program.cs:384-408 | One rewrite step: the restart index lies inside the new text, fewer quotes remain after it, and the result still equals the reference. |
| Quotes.PairLayout | LinkingSystemTransformer/Program.cs:397-408 | After the pair is protected, the new text up to and including the restart index is the old text before the pair, the opening quote, the protected inside and the closing quote. After it comes the old text past the closing quote, unchanged. |
| Quotes.MaskUnpaired | LinkingSystemTransformer/Program.cs:382-386 | A single quote with no later partner, including one in the last position, opens nothing: the text is unchanged. |
| Quotes.CheckForQuotesNeedsPair | LinkingSystemTransformer/Program.cs:378-413 | With fewer than two occurrences of the quote character the text comes back unchanged. |
| Quotes.MaskWithoutSpaces | LinkingSystemTransformer/Program.cs:397 | Only spaces are replaced: a text without spaces comes back unchanged. |
| Quotes.MaskKeepsQuotes | LinkingSystemTransformer/Program.cs:397 | The quote character is in the result exactly when it is in the input. |
| Quotes.MaskRestores | LinkingSystemTransformer/Program.cs:397 | Masking keeps the text aligned on placeholders and does not change what restoring gives. |
| Quotes.CheckForQuotesRoundTrip | LinkingSystemTransformer/Program.cs:374-414 | When the input holds no `#`, turning placeholders back into spaces gives the input back. |
| Quotes.CheckForQuotesIdempotent | LinkingSystemTransformer/Program.cs:374-414 | Protecting a second time changes nothing. |
| Quotes.ProtectQuotesRoundTrip | LinkingSystemTransformer/Program.cs:249-250 | After the single-quote pass and then the double-quote pass, restoring gives the input back when it holds no `#`. |
| Names.DotJoin | LinkingSystemTransformer/Program.cs:239-246 | Joining n trimmed fragments with ". " gives exactly n-1 dots, each followed by a space. |
| Names.DotJoinKeeps | LinkingSystemTransformer/Program.cs:241-246 | Any character that is neither whitespace nor a dot occurs as often as in the fragments joined with dots. |
| Names.NormalizeDots | LinkingSystemTransformer/Program.cs:237-248 | Dot normalisation keeps the number of dots. Every dot is the last character or is followed by a space. Every character that is neither whitespace nor a dot keeps its count, and the result is trimmed. |
| Names.Tokens | LinkingSystemTransformer/Program.cs:249-257 | There is at least one token, and after restoring no token holds the placeholder. |
| Names.TokensRejoin | LinkingSystemTransformer/Program.cs:248-257 | When the input holds no `#`, the tokens joined with single spaces are the dot-normalised text. |
| Names.NonSuffixBelow | LinkingSystemTransformer/Program.cs:278-290 | Reference for the suffix phase: 0 or the rightmost index ≥ 1 whose token is not a known suffix, with every later token a suffix. |
| Names.LeftmostParticle | LinkingSystemTransformer/Program.cs:292-299 | Reference for the particle phase: the leftmost last-name particle in a range, or the range's end when there is none. |
| Names.ParticleRunEnd | LinkingSystemTransformer/Program.cs:310-330 | Reference for the first-name shift: the first index from 1 whose token is not a first-name particle, or the last index. |
| Names.Segment | LinkingSystemTransformer/Program.cs:266-336 | For two or more tokens the final boundaries satisfy 1 ≤ beginOfLastName ≤ n, so token 0 is never in the last name. beginOfMiddleName is either -1 or lies in [1, beginOfLastName). |
| Names.ScanLastName | LinkingSystemTransformer/Program.cs:266-306 | The right-to-left scan with the `canBeSuffix`/`canBePrefix` flags ends with 1 ≤ beginOfLastName ≤ n-1 and beginOfMiddleName ∈ {-1, 1}. Both equal the closed-form references. |
| Names.ShiftFirstParticles | LinkingSystemTransformer/Program.cs:308-331 | When token 0 is a first-name particle, each boundary inside the leading particle run moves to just past its end, because a boundary equal to `i` is bumped before token `i` is tested. Otherwise nothing moves. |
| Names.Assemble | LinkingSystemTransformer/Program.cs:338-369 | The three fields are built from the spans [0, m or L), [m, L) and [L, n), and each field is trimmed. |
| Names.AssembleFree | LinkingSystemTransformer/Program.cs:256-276 | When no token holds the placeholder, no field does. |
| Names.AssembleRejoins | LinkingSystemTransformer/Program.cs:338-369 | The spans cover every token once, in order. With non-empty trimmed tokens, the non-empty fields joined with single spaces equal all tokens joined with single spaces. |
| Names.ParsePersonName | LinkingSystemTransformer/Program.cs:226-372 | A stage name, compared lower-cased and untrimmed, comes back whole as the first name. A single token is the first name. Two or more tokens are cut at the `Segment` boundaries. Off the stage-name path, no field holds the placeholder. |
| Names.ParticleExample | LinkingSystemTransformer/Program.cs:292-299 | "Ludwig van Beethoven" with particle "van": no middle name, and the last name starts at "van". |
| Names.SuffixExample | LinkingSystemTransformer/Program.cs:278-305 | For the already split tokens "Martin", "Luther", "King", "Jr." with suffix "jr.": middle name from token 1, last name from "King". |
| Names.SuffixExampleFields | LinkingSystemTransformer/Program.cs:338-369 | Assembling the same tokens at those boundaries gives first name "Martin", middle name "Luther" and last name "King Jr.". |
| Roster.PersonOf | LinkingSystemTransformer/Program.cs:420-422 | `as T` yields a person exactly for a cast member in a cast list or a crew member in a crew list. Dividers and the other member type are skipped. |
| Roster.KeyEquals | LinkingSystemTransformer/Program.cs:503-518 | Field-wise ordinal equality of last, first, middle name and birth year coincides with equality of the identity record, so it is an equivalence relation. |
| Roster.Quarter | LinkingSystemTransformer/Program.cs:497-501 | C# `/ 4` truncates toward zero: the remainder has the sign of the dividend and is below 4 in size. |
| Roster.KeyHash | LinkingSystemTransformer/Program.cs:497-501 | The hash is the sum of the four truncated quarters, so four times it is within 12 of the sum of the field hashes (the birth year hashing to itself). |
| Roster.KeyHashNeverWraps | LinkingSystemTransformer/Program.cs:497-501 | When the three string hashes and the birth year are `Int32` values, the sum of their quarters is an `Int32` value too: the sum never wraps around. |
| Roster.EqualKeysHashEqual | LinkingSystemTransformer/Program.cs:497-518 | Equal keys hash equal, for any string hash. |
| Roster.Find | LinkingSystemTransformer/Program.cs:467-470 | -1 exactly when no stored key equals the person; otherwise an index whose key is the person. |
| Roster.ContainsKey | LinkingSystemTransformer/Program.cs:466-467 | The roster lacks a person exactly when no stored key equals it, so it contains the person exactly when some stored key does. |
| Roster.Lookup | LinkingSystemTransformer/Program.cs:469-470 | The indexer succeeds exactly when the key is present, and then returns an id stored with that key. Otherwise it fails with `KeyNotFound`. |
| Roster.Add | LinkingSystemTransformer/Program.cs:479-482 | `Add` refuses a key already present. Otherwise it appends the key with the counter's current value and moves the counter on by one; the counter starts at 1 (line 18). |
| Roster.Insert | LinkingSystemTransformer/Program.cs:424-427 | After the guarded insert the key is present. A key already present allocates nothing; a new key takes the counter's value. |
| Roster.FillDynamicHash | LinkingSystemTransformer/Program.cs:416-429 | A non-person entry leaves the roster unchanged; a person goes through the guarded insert. |
| Roster.InsertKeepsValid | LinkingSystemTransformer/Program.cs:416-429 | Guarded inserts keep ids consecutive from 1 in insertion order, keep the counter as the next id, and never store a key twice. |
| Roster.IdsInjective | LinkingSystemTransformer/Program.cs:479-482 | In a valid roster distinct keys have distinct ids. |
| Roster.Dedup | LinkingSystemTransformer/Program.cs:424-427 | Reference: the distinct persons of a sequence, with no repeats and exactly the persons of the input. |
| Roster.DedupOrder | LinkingSystemTransformer/Program.cs:424-427 | The distinct persons are listed in first-seen order: a person listed earlier first occurs earlier in the input. |
| Roster.RegisterIsTable | LinkingSystemTransformer/Program.cs:416-429 | Registering persons into the empty roster numbers the distinct persons from 1 in first-seen order. |
| Roster.RegisteredRoster | LinkingSystemTransformer/Program.cs:479-482 | The registered roster is valid and holds exactly the persons seen. The k-th distinct person seen has id k+1. |
| Roster.LookupStable | LinkingSystemTransformer/Program.cs:469-470 | Once a person is in, later registrations never change its id: lookup returns the id from the first add. |
| Roster.FillList | LinkingSystemTransformer/Program.cs:102-115 | One inner loop of Phase 3 registers the persons of a list in list order. |
| Roster.BuildRoster | LinkingSystemTransformer/Program.cs:98-117 | Phase 3 registers each profile's cast and then its crew, profile by profile. The result numbers the distinct persons of the collection from 1 in first-seen order. |
| Roster.BuiltRosterCovers | LinkingSystemTransformer/Program.cs:98-117 | After the build, every cast or crew member of every profile can be looked up. |
| Credits.CastPositions | LinkingSystemTransformer/Program.cs:178-182 | The positions that give a row are exactly the cast-member positions of the list, each once, in increasing order. |
| Credits.CastEntriesInOrder | LinkingSystemTransformer/Program.cs:178-182 | The k-th row-giving entry is the list entry at the k-th cast-member position, so rows follow list order; an actor credited twice gets the roles in list order. |
| Credits.CastEntries | LinkingSystemTransformer/Program.cs:178-182 | The entries that give a row are the cast-member entries of the list, in list order, one for each cast person the list names. |
| Credits.CastSheetRows | LinkingSystemTransformer/Program.cs:176-201 | The cast sheet succeeds exactly when the roster knows every cast member, and fails only with `KeyNotFound`. It then has one row per cast-member entry, in list order. Each row carries that member's id and role, and the structured name when there is no credited-as text, else the parsed credited-as text. |
| Credits.CastCredits | LinkingSystemTransformer/Program.cs:176-201 | The cast loop succeeds exactly when every cast member is known and otherwise stops with `KeyNotFound`. On success its k-th row belongs to the k-th cast-member entry: that member's id, its role, and the structured name when there is no credited-as text, else the parsed credited-as text. |
| Credits.SheetAfterBuild | LinkingSystemTransformer/Program.cs:176-184 | On the roster built from the whole collection, no profile's cast-sheet lookup can miss. |

## Left out

- `Main`'s dialogs, XML deserialisation, file and console output, and the try/catch (LinkingSystemTransformer/Program.cs:29-224) are I/O. The two phases they drive are modelled as `Roster.BuildRoster` and `Credits.CastCredits`.
- `InitList` (LinkingSystemTransformer/Program.cs:431-452) reads files. The four word lists are passed in as already lower-cased sets (`Names.Lexicons`).
- Culture-sensitive `ToLower` and `Trim` are modelled as ASCII lower-casing and trimming of ASCII whitespace (space and tab through carriage return). Unicode case mapping and Unicode whitespace are not modelled.
- Roster.KeyHash: `String.GetHashCode` is a parameter, since it is platform-dependent. The truncating `/ 4` is modelled. Because each quarter of an `Int32` lies in [-2^29, 2^29 - 1], the sum of four always fits in `Int32` and cannot wrap around (`Roster.KeyHashNeverWraps`).
- Roster.Add: the static counter is an unbounded integer, so `Int32` overflow after 2^31 - 1 persons is not modelled. When a duplicate key reaches `Dictionary.Add`, the original's counter has already moved on before the exception. The model returns `DuplicateKey` without that increment, because the exception ends the run. The guard in `FillDynamicHash` keeps this path from being reached.
- The `Dictionary` is modelled as an insertion-ordered sequence. The report enumerates it in that order, which is what `Dictionary` does when nothing is removed. Hashing into buckets and the initial capacity are not modelled.
- A null cast or crew list, and a null credited-as text, are modelled as empty.
- Name fields are never null in the model: `Person` holds plain strings. In the original, a cast or crew member with a null first, middle or last name makes `PersonKey.GetHashCode` (LinkingSystemTransformer/Program.cs:497-501) throw inside `ContainsKey` (line 424), and the catch at line 212 ends the run.
- `PersonKey.ToString` (LinkingSystemTransformer/Program.cs:520-560) and the fixed-width `PadLeft`/`PadRight` report lines are display-only formatting and are not modelled. A cast sheet row carries the id, the name fields and the role rather than the padded text.
- Phase 4 writes cast sheets only, so crew members appear in the model only through the roster.
- `WindowHandle` and the assembly version lookup are UI and reflection.
