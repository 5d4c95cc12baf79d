# Horn of Mongo, verified

Horn of Mongo runs the JavaScript of the MongoDB shell on Rhino. This project models the parts of it that
are algorithms, codecs or state machines, and proves what they are relied on for. It has four larger parts.

**Values as text** (`Text`, `Json`, `JsonPrinter`, `JsonReader`, `JsonProofs`, `JsonConverse`, `Layout`,
`FlatText`, `Friendly`, `FriendlyEqualProofs`, `FriendlyEqualExact`). `JsonText` is the text `tojson` gives
for a value in each of its layouts, and the methods of `JsonPrinter` are its loops. The text is held against a
reader that knows nothing of layouts: a lexer with the whitespace of section 2 and the strings of section 7 of
RFC 8259, and a parser. A value is read back exactly when its keys are harmless. Where the breaks, tabs and
spaces stand is held against a layout of the value's tokens that knows only which brackets are open
(`Layout`). `friendlyEqual` compares such texts; under a weaker condition on keys different values have
different texts, which settles, exactly, when it answers true.

**Dates** (`EcmaDate`, `IsoDate`, `IsoRoundTrip`, `IsoForms`). Time values, `Date.UTC` and the UTC accessors of section
15.9.1 of ECMA-262 edition 5.1, with the calendar worked out both ways. `ISODate`, regular expression included,
is a method proved against the instant its fields denote with nothing carried. Texts printed by
`Date.prototype.tojson` read back as the same instant exactly for the years 100 to 9999. Every other way of
writing a date that the expression admits, zones included, is given its meaning from its text (`IsoForms`).

**Incremental map-reduce** (`MapReduce`). The globals of `mr.js` are the fields of a class. Its invariant says
that what is pending and what is stored for a key stand, under the reduce function, for everything emitted for
that key; from it follows what a whole run leaves in the collection.

**JavaScript and BSON** (`JavaInts`, `TimestampGenerator`, `Bson`, `BsonRoundTrip`, `BsonTypes`). Both converters of
`BSONizer.java`, with the generator of timestamps threaded through them. Each round trip gives a normal form
for exactly the portable values, and a second round trip changes nothing. What is sent is held against a reading
of BSON that keeps the type of every value (`BsonTypes`).

The smaller parts: waiting for replication against members whose oplogs move between every two reads
(`Attempt`, `Replication`), the bucketed `Map` and the keys its hash is good for (`HashMap`, `MapKeys`),
`Array.shuffle` (`Shuffle`), command-line options (`Options`, `OptionLaws`), ports (`Ports`), cursors and
paging (`Paging`), and the balance test (`Sharding`). `Arithmetic` has a few facts on products and quotients.

Code that updates its variables is a method or a class here, proved against a function or predicate; what the
source promises is then proved about that.

## Findings

Some promises do not hold of the code as it stands. The code was kept as it is, and the exact condition is proved.

- `tojson` prints keys raw, so a key with a quote, a backslash or a control character is not read back; nor is
  an object with a key `toString` (printed as `[object]`) or with a NumberInt under the key `constructor`
  (whose own printer is borrowed). Every other value is read back (`JsonConverse.ReadBackIff`).
- `friendlyEqual` takes the string `NumberInt(5)` for the string `5`, and tells a NumberInt from its number when
  only one of the two texts is 80 characters or longer (`FriendlyEqualExact.FooledByString`, `MissedByLength`).
  With a quote in a key, a tab or line break in a short one, a key `toString`, or a NumberInt under the key
  `constructor`, it answers true of different values (`FooledByQuote`, `FooledByBreak`, `FooledByToString`,
  `FooledByConstructor`); without these it answers true exactly as stated (`FriendlyEqualIff`).
- Dates of the years 0 to 99 are moved to the twentieth century when read back, and dates before the year 0 or
  after 9999 come back as other dates or are refused (`IsoRoundTrip.ReadBackDate`).
- A second `doReduce(true)` over the same slots counts every value twice, which is harmless exactly when all
  values of each key with a slot reduce, twice over, to what they reduce to once (`MapReduce.SecondSpillIff`).
- A BinData subtype above 127 turns negative on the way through Java's `byte` and cannot be read back; a UUID
  needs 16 bytes; `Timestamp(0, ...)` is replaced by a generated one (`BsonRoundTrip.JsRoundTrip`).
- Generated timestamps increase exactly when no conversion that reads the clock finds it at an earlier second than
  one before (`TimestampGenerator.GeneratedIncreaseIff`). They are all different exactly when no second comes
  round again once another has been read, except the second the generator held to begin with, and that only as
  often as its ordinal then was (`GeneratedDistinctIff`); readings of 5, 4 and again 5 seconds repeat one
  (`SetBackRepeats`).
- The branch of `arrOptions` that would pass arguments on as they are is never taken for an array, because
  `isObject` is true of arrays; an array of strings is encoded by its indices, and is passed on only if it is
  empty (`Options.ArrayPassedIff`).
- A negative number among the options comes back as an empty text, and its numeral as an option of its own
  (`OptionLaws.NegativeLost`).
- `countReturn` is negative when `skip` passes the number of matches (`Paging.DBQuery.CountReturn`).
- `chunkDiff` starts its minimum at 100000000, so evenly loaded shards with more than 100000001 chunks each
  never pass for balanced (`Sharding.BalanceIff`).
- `Map.hash` tells `[[NumberInt(5)]]` from `[[5]]`, which `friendlyEqual` equates (`MapKeys.HashSeparates`), and,
  where `==` coerces, null from undefined, 0 from the empty string and 5 from `[5]` (`MapKeys.CoercionSeparates`).
  Two arrays or objects with safe keys and no mention of NumberInt calls that `friendlyEqual` equates hash alike
  exactly when the NumberInts in arrays that are properties stand at the same places in both
  (`MapKeys.EqualKeysIff`). Where there are no such NumberInts the two go together (`MapKeys.ShellKeys`).

## Model

| member | source | states |
|---|---|---|
| JsonConverse.ReadBackIff | src/main/javascript/mongodb/types.js:504-641 | For every value with valid numbers, in every layout and at every blank indentation: the reader gives back the value `tojson` printed if and only if no key needs escaping, none is `toString`, and none named `constructor` holds a NumberInt. |
| JsonProofs.ReadBack | src/main/javascript/mongodb/types.js:504-641 | The half of it that builds up: every good value is read back from its text. |
| JsonProofs.LexCollapse | src/main/javascript/mongodb/types.js:561-563 | Collapsing runs of tabs and line breaks to a space never changes the tokens of a text. |
| JsonProofs.LexConcat | src/main/javascript/mongodb/types.js:621-636 | The tokens of a concatenation are those of its parts, unless a word runs across the seam. |
| JsonProofs.LexEscaped | src/main/javascript/mongodb/types.js:515-555 | An escaped string followed by a quote is read as the string, whatever comes after. |
| JsonProofs.LexArrayText | src/main/javascript/mongodb/types.js:147-174 | An array's text has the array's tokens in every layout. |
| JsonProofs.LexObjectText | src/main/javascript/mongodb/types.js:606-640 | An object's text with plain keys has the object's tokens in every layout. |
| JsonReader.ParseTokens | src/main/javascript/mongodb/types.js:504-641 | The parser gives back any value from its tokens and leaves what follows. |
| JsonReader.ParseExact | src/main/javascript/mongodb/types.js:504-641 | And only from those: whatever the parser accepts begins with the tokens of the value it answers. |
| JsonConverse.LaggingKey | src/main/javascript/mongodb/types.js:630 | A raw key that makes the reader meet a backslash is never read as itself, as the reader cannot catch up before the first raw quote. |
| JsonConverse.BadJsonText | src/main/javascript/mongodb/types.js:582-641 | A value with a bad key anywhere in it never has its own tokens at the head of its text, collapsed or not. |
| JsonPrinter.QuoteString | src/main/javascript/mongodb/types.js:515-554 | The character loop of the string case builds the escaped string in quotes. |
| JsonPrinter.ToJson | src/main/javascript/mongodb/types.js:504-572 | The printer as it runs gives the specified text. |
| JsonPrinter.ToJsonObject | src/main/javascript/mongodb/types.js:574-641 | Dispatch on the kind of object, with the borrowed printer and the `[object]` case. |
| JsonPrinter.PrintFields | src/main/javascript/mongodb/types.js:606-640 | The key loop: a comma after every field but the last, the indentation pushed and popped. |
| JsonPrinter.ArrayToJson | src/main/javascript/mongodb/types.js:147-174 | The element loop of `Array.tojson`. |
| Layout.PrettyLaw | src/main/javascript/mongodb/types.js:147-174 | At every depth, with `nolint` false: the text of a value is its tokens with a line break after each opening bracket and comma and before each closing bracket, as many tabs then as brackets are open, and `[ ]` for an empty array, for every value without objects that print as something else. |
| Layout.OneLineLaw | src/main/javascript/mongodb/types.js:500-502 | With `nolint` true, for the same values: one space in place of each line break, and a tab before each element and field within an array. |
| Layout.UnsetLaw | src/main/javascript/mongodb/types.js:557-569 | With `nolint` left out, for every value: the text for false if that has 80 characters or more, else that text collapsed. |
| Layout.CollapseRun | src/main/javascript/mongodb/types.js:561-563 | Collapsing puts one space for each whole run of tabs and line breaks and keeps the rest. |
| Layout.SpecialObject | src/main/javascript/mongodb/types.js:586-588 | An object with NumberInt(n) under `constructor` prints as `NumberInt(n)`, in every layout. |
| Layout.OwnToString | src/main/javascript/mongodb/types.js:594-604 | One with an own `toString`, and no such number, prints as `[object]`. |
| Layout.EscapeShortest | src/main/javascript/mongodb/types.js:515-555 | No shorter spelling is read as the character, and hexadecimal digits are lower case. |
| FriendlyEqualExact.FriendlyEqualIff | src/main/javascript/mongodb/utils.js:11-33 | For values whose keys hold no quote, tab or line break, are not `toString`, and lend no NumberInt through `constructor`: true if and only if `==` answers true, or the values agree once each NumberInt(n) is read as n, in strings and keys too, and every array reached through objects falls on the same side of 80 characters in both. |
| FlatText.FlatInjective | src/main/javascript/mongodb/types.js:606-640 | On one line and collapsed, texts that begin alike up to where a value ends begin with the same value, keys being read raw. |
| FriendlyEqualExact.FriendlyEqualSound | src/main/javascript/mongodb/utils.js:11-33 | Where no string or key mentions `NumberInt(`, a true answer is that of `==` or means structural equality once NumberInt(n) is read as n. |
| FriendlyEqualExact.FriendlyEqualStructural | src/main/javascript/mongodb/utils.js:11-33 | With no NumberInt either, the answer is that of `==` or of structural equality, both ways. |
| FriendlyEqualExact.FooledByString | src/main/javascript/mongodb/utils.js:21-24 | A string spelling a NumberInt call is taken for the number in it. |
| FriendlyEqualExact.FooledByQuote | src/main/javascript/mongodb/types.js:630 | A key with a quote can stand for two fields: objects of one and of two fields are answered equal. |
| FriendlyEqualExact.FooledByBreak | src/main/javascript/mongodb/types.js:561-563 | Short keys that collapse to the same text are answered equal. |
| FriendlyEqualExact.TabForSpace | src/main/javascript/mongodb/types.js:561-563 | So are a tab and a space as keys. |
| FriendlyEqualExact.FooledByToString | src/main/javascript/mongodb/types.js:594-604 | Any two objects with a key `toString` and no borrowed printer are answered equal. |
| FriendlyEqualExact.FooledByConstructor | src/main/javascript/mongodb/types.js:586-588 | An object with NumberInt(n) under the key `constructor` is answered equal to NumberInt(n). |
| FriendlyEqualExact.MissedByLength | src/main/javascript/mongodb/types.js:561-563 | Two arrays equal but for a NumberInt wrapper are answered different, as only the shorter text is collapsed. |
| FriendlyEqualExact.MarginCompare | src/main/javascript/mongodb/types.js:561-563 | For values alike under the folding, the cleaned texts are the same if their arrays are laid out alike and differ otherwise. |
| FriendlyEqualProofs.CleanSplit | src/main/javascript/mongodb/utils.js:21-24 | The clean-up of a text is that of its two parts wherever no match can run across the seam. |
| FriendlyEqualProofs.CleanCall | src/main/javascript/mongodb/utils.js:21-24 | The clean-up leaves of `NumberInt(t)`, t a whole number with or without a minus, just t, and reads on behind it. |
| FriendlyEqualProofs.CleanElse | src/main/javascript/mongodb/utils.js:21-24 | Any other character it keeps. |
| FriendlyEqualProofs.FoldSafe | src/main/javascript/mongodb/utils.js:21-24 | The clean-up of a value whose keys are safe leaves one whose keys are safe, with no NumberInt. |
| Text.ZeroPad | src/main/javascript/mongodb/types.js:304-306 | `zeroPad` as it runs gives the padded numeral. |
| Text.Pad | src/main/javascript/mongodb/types.js:286-297 | The padding loop, on either side and with any character. |
| Text.NatValuePadded | src/main/javascript/mongodb/types.js:286-306 | Padding with zeros does not change the number a numeral stands for. |
| EcmaDate.YearFromDay | src/main/javascript/mongodb/types.js:33-45 | The year of a day is the one that has begun and not ended, for every day before or after 1970. |
| EcmaDate.FirstOfMonth | src/main/javascript/mongodb/types.js:85-95 | The first of a month as computed is the day whose accessors give that year, month and date 1, months beyond December carried. |
| EcmaDate.CivilRoundTrip | src/main/javascript/mongodb/types.js:33-54 | Taking any instant apart with the accessors and putting it together again gives the instant. |
| EcmaDate.Gregorian | src/main/javascript/mongodb/types.js:33-54 | Days count from 1970; years have 365 days or, by the rule of 4, 100 and 400, 366; months have 31, 30, 28 or 29. |
| EcmaDate.TwentiethCentury | src/main/javascript/mongodb/types.js:95 | Years 0 to 99 are those of the twentieth century to `Date.UTC`, and no other year is moved. |
| IsoDate.IsoDate | src/main/javascript/mongodb/types.js:56-108 | For every string: an exception exactly when there is no match, else the instant the uncarried fields denote with the zone taken off; never outside the range of time values. |
| IsoDate.CarryClock | src/main/javascript/mongodb/types.js:73-84 | The carries from milliseconds to hours keep the time of day. |
| IsoDate.CarryDay | src/main/javascript/mongodb/types.js:85-95 | Hour 24 by re-reading the calendar keeps the instant. |
| IsoDate.ZoneOffset | src/main/javascript/mongodb/types.js:97-105 | The zone adds its hours and minutes for a minus and takes them off for a plus. |
| IsoDate.NextDay | src/main/javascript/mongodb/types.js:85-93 | The calendar day a day later, at hour 0, is hour 24 of the day before, in every month and year. |
| IsoDate.UtcInRange | src/main/javascript/mongodb/types.js:95 | No fields the expression can match lead outside the range of time values. |
| IsoDate.RoundedMsNearest | src/main/javascript/mongodb/types.js:72 | A fraction of any length is rounded to the nearest millisecond, up from the middle; three digits are taken as they are. |
| IsoForms.FormMeaning | src/main/javascript/mongodb/types.js:60-107 | For every text the expression takes whole, dashes, colons, minutes, seconds, fraction and zone there or not: the instant of the fields as written, 1970 and January for zeros, less the minutes its zone is ahead of UTC. |
| IsoForms.PrintedZone | src/main/javascript/mongodb/types.js:97-105 | For every printed date of the years 0 to 9999 whose Z gives way to a sign, hh, and mm with or without a colon or not at all: the instant less (60 hh + mm) minutes for a plus, and more for a minus. |
| IsoForms.PrintedNoZone | src/main/javascript/mongodb/types.js:97-105 | And the instant itself if the Z is left off. |
| IsoForms.BeforeDigits | src/main/javascript/mongodb/types.js:61-64 | What stands before the first digit is passed over, and a text without digits is refused. |
| IsoForms.DateShape | src/main/javascript/mongodb/types.js:33-54 | The printed date character by character: where the dashes, colons, point, T and Z stand, and the number each group of digits is. |
| IsoRoundTrip.ReadBackDate | src/main/javascript/mongodb/types.js:33-108 | For every instant: `ISODate` of the text between the printed quotes is that instant if and only if its year is 100 to 9999. |
| IsoRoundTrip.MatchesFields | src/main/javascript/mongodb/types.js:60-61 | The expression takes a printed text apart into just the printed fields. |
| IsoRoundTrip.FiveDigits | src/main/javascript/mongodb/types.js:33-61 | A year of five digits loses its first digit, so the instant is not given back. |
| IsoRoundTrip.FarYears | src/main/javascript/mongodb/types.js:33-61 | Nor is it for negative years and years of six digits and more, whatever is matched. |
| IsoRoundTrip.TwoDigitYears | src/main/javascript/mongodb/types.js:87-95 | Nor for the years 0 to 99. |
| MapReduce.Run | src/main/javascript/mongodb/mr.js:20-95 | After any interleaving of emits and checks, a last `doReduce(true)` and `finalize`: the collection holds exactly the emitted keys, each with finalize(k, reduce(k, all its values)). |
| MapReduce.MR.constructor | src/main/javascript/mongodb/mr.js:5-13 | The start satisfies the invariant with nothing emitted. |
| MapReduce.MR.Emit | src/main/javascript/mongodb/mr.js:20-30 | The invariant is kept, the value joins the pending values of its own key only, and the collection is not touched. |
| MapReduce.MR.DoReduce | src/main/javascript/mongodb/mr.js:32-70 | In memory the invariant is kept; to the collection, the collection then holds for exactly the emitted keys one reduce over all their values. |
| MapReduce.MR.ReduceSlot | src/main/javascript/mongodb/mr.js:37-69 | One turn of that loop, merging with what the collection holds. |
| MapReduce.MR.Check | src/main/javascript/mongodb/mr.js:72-86 | When it reduces and when it spills, what each answer means, and that fewer than 1000 slots of fewer than 2000 values are left, at most 999 * 1999 in all. |
| MapReduce.MR.Finalize | src/main/javascript/mongodb/mr.js:88-95 | Every stored value goes through finalize once. |
| MapReduce.EmitKeeps | src/main/javascript/mongodb/mr.js:20-30 | An emit keeps the invariant: one slot a key, `$max` the largest count, and every key accounted for. |
| MapReduce.ReduceKeeps | src/main/javascript/mongodb/mr.js:32-70 | So does a reduce in memory. |
| MapReduce.SpillSettles | src/main/javascript/mongodb/mr.js:42-68 | A spill leaves one reduce per key over everything emitted, whatever was reduced or spilled before. |
| MapReduce.ClearKeeps | src/main/javascript/mongodb/mr.js:80-83 | Dropping the slots and the key numbers after a spill loses nothing. |
| MapReduce.OrderIrrelevant | src/main/javascript/mongodb/mr.js:20-70 | The result for a key does not depend on the order emits came in. |
| MapReduce.SecondSpillDoubles | src/main/javascript/mongodb/mr.js:80-83 | A second spill with the slots in place stores the reduce of everything twice over. |
| MapReduce.SecondSpillIff | src/main/javascript/mongodb/mr.js:80-83 | The collection is still right after it if and only if, for every key with a slot, all values twice over reduce to what they reduce to once. |
| BsonRoundTrip.JsRoundTrip | src/main/java/com/github/nlloyd/hornofmongo/util/BSONizer.java:74-319 | For every nested JavaScript value: there and back gives the normal form if and only if the value is portable, and then leaves the timestamp generator alone. |
| BsonRoundTrip.BsonRoundTrips | src/main/java/com/github/nlloyd/hornofmongo/util/BSONizer.java:74-319 | The same in the other direction, for every nested BSON value. |
| BsonRoundTrip.JsSecondTrip | src/main/java/com/github/nlloyd/hornofmongo/util/BSONizer.java:74-319 | A further round trip changes nothing. |
| BsonRoundTrip.BsonSecondTrip | src/main/java/com/github/nlloyd/hornofmongo/util/BSONizer.java:74-319 | Nor does one from BSON. |
| BsonRoundTrip.NormalJsOnce | src/main/java/com/github/nlloyd/hornofmongo/util/BSONizer.java:139-146 | Normal forms are their own normal forms, and portable. |
| BsonRoundTrip.NormalBsonOnce | src/main/java/com/github/nlloyd/hornofmongo/util/BSONizer.java:182-250 | The same for BSON. |
| BsonRoundTrip.UuidBytes | src/main/java/com/github/nlloyd/hornofmongo/util/BSONizer.java:286-298 | Sixteen bytes read as two little-endian longs and written back are the same bytes. |
| BsonRoundTrip.UuidLongs | src/main/java/com/github/nlloyd/hornofmongo/util/BSONizer.java:238-247 | Two longs written and read back are the same longs. |
| BsonTypes.ToBsonTyped | src/main/java/com/github/nlloyd/hornofmongo/util/BSONizer.java:74-319 | For every nested JavaScript value: it is refused if and only if it holds an object of another class or a UUID below 16 bytes; else what is sent, read with its types, is the value up to plain integers as doubles, bare MinKey and MaxKey as instances, UUIDs cut to 16 bytes, timestamps cut to ints, and unset timestamps stamped in document order with one reading of the clock each. |
| BsonTypes.SentAlikeIff | src/main/java/com/github/nlloyd/hornofmongo/util/BSONizer.java:74-319 | Two values are sent alike if and only if they are the same up to those changes. |
| JavaInts.PutGet | src/main/java/com/github/nlloyd/hornofmongo/util/BSONizer.java:291-295 | Eight bytes survive being read as a signed long. |
| JavaInts.GetPut | src/main/java/com/github/nlloyd/hornofmongo/util/BSONizer.java:242-246 | A signed long survives being written as eight bytes. |
| JavaInts.LongByBytes | src/main/java/com/github/nlloyd/hornofmongo/util/BSONizer.java:291-295 | The byte read first weighs least, and the last carries the sign. |
| JavaInts.CastsWrap | src/main/java/com/github/nlloyd/hornofmongo/util/BSONizer.java:286 | Casts to byte and int keep a number but for a multiple of 2^8 and 2^32, and in their range as it is. |
| TimestampGenerator.Generator.Convert | src/main/java/com/github/nlloyd/hornofmongo/util/BSONizer.java:331-349 | What is handed out and what the static fields become; an explicit time leaves them alone. |
| TimestampGenerator.SecondsAre | src/main/java/com/github/nlloyd/hornofmongo/util/BSONizer.java:336 | A reading in milliseconds counts as whole thousands, the fraction dropped, as a Java int. |
| TimestampGenerator.GeneratedIncreaseIff | src/main/java/com/github/nlloyd/hornofmongo/util/BSONizer.java:331-349 | Over every run with room in the counter: generated timestamps strictly increase if and only if no conversion that reads the clock finds an earlier second than one before it, explicit timestamps in between or not. |
| TimestampGenerator.GeneratedDistinctIff | src/main/java/com/github/nlloyd/hornofmongo/util/BSONizer.java:331-349 | Over every such run: all generated timestamps differ if and only if no second comes round again, save the one held at the start, and that no more often than its ordinal at the start. |
| TimestampGenerator.GeneratedDistinct | src/main/java/com/github/nlloyd/hornofmongo/util/BSONizer.java:331-349 | So a clock that never goes back to an earlier second repeats none. |
| TimestampGenerator.SetBackRepeats | src/main/java/com/github/nlloyd/hornofmongo/util/BSONizer.java:339-343 | Readings of 5, 4 and 5 seconds: the third is handed out the first timestamp again. |
| Attempt.Attempt | src/main/javascript/mongodb/utils.js:479-495 | The answer is that of the first call that is not false; it times out after the first call whose sleeping time passes the timeout, 1000 and 2000 standing for a timeout and a sleeping time that are absent or 0, and no earlier. |
| Attempt.GivesUp | src/main/javascript/mongodb/utils.js:486-491 | The time is up exactly from floor(timeout / sleepTime) + 1 calls on. |
| Replication.ReplSetTest.AwaitReplication | src/main/javascript/mongodb/replsettest.js:515-595 | When it returns, every live secondary that is no arbiter has reached at least what the primary had written when it was called, though every oplog may grow between any two reads and any query may fail; and it gives up when the sleeping time passes the timeout, 30000 if absent or 0, and no earlier. If nothing moves, nothing fails and all of them hold the primary's newest entry, it returns after one pass. |
| Replication.ReplSetTest.CheckSecondaries | src/main/javascript/mongodb/replsettest.js:526-584 | One pass answers true only if every live secondary has reached the mark, false only if some did not hold it throughout, and throws only if a query fails or the primary has no entry; the mark is only replaced if a secondary is beyond it, and then by an entry of the primary. |
| Replication.ReplSetTest.Try | src/main/javascript/mongodb/replsettest.js:524-594 | The same with an exception answered by starting over from the primary. |
| Replication.ReplSetTest.GetLastOpTimeWritten | src/main/javascript/mongodb/replsettest.js:500-513 | The mark is an entry between the primary's newest before the call and its newest after it; it gives up only if the primary is not found, or when retries have slept past 30 seconds, and not without a failure or an empty oplog. |
| Replication.SameTimestampIff | src/main/javascript/mongodb/replsettest.js:560 | `friendlyEqual` of two timestamps, by their texts, is equality of time and ordinal. |
| HashMap.Map.Find | src/main/javascript/mongodb/types.js:468-483 | Buckets stay right, no two entries have equivalent keys, and the entry found or made is the key's own. |
| HashMap.Map.Get | src/main/javascript/mongodb/types.js:464-466 | The value last put for an equivalent key, or null, over any run of puts and gets. |
| HashMap.Map.Put | src/main/javascript/mongodb/types.js:457-462 | Answers the previous value or null; from then on the key holds the new one and no other key changes. |
| HashMap.Map.Values | src/main/javascript/mongodb/types.js:485-491 | One value for each class of equivalent keys touched, no more and no fewer. |
| HashMap.HeldIsLastPut | src/main/javascript/mongodb/types.js:457-483 | What a key holds after a run of uses: nothing if untouched, the last value put, null if there were only gets. |
| HashMap.HeldSame | src/main/javascript/mongodb/types.js:477-481 | Equivalent keys hold the same. |
| MapKeys.HashIff | src/main/javascript/mongodb/types.js:436-455 | A value and the same with its NumberInts read as numbers hash alike if and only if NumberInts are in it as properties only, not as the key itself nor in an array within it. |
| MapKeys.MapHash | src/main/javascript/mongodb/types.js:436-455 | The loop over properties gives the hash the other results are about. |
| MapKeys.HashThrowsIff | src/main/javascript/mongodb/types.js:454 | It throws for true and nothing else. |
| MapKeys.LeafHash | src/main/javascript/mongodb/types.js:437-451 | A value without properties hashes to its text, a NumberInt to its one property and what its prototype adds. |
| MapKeys.HashSplit | src/main/javascript/mongodb/types.js:447-450 | Objects hash property by property, in order. |
| MapKeys.OneProperty | src/main/javascript/mongodb/types.js:449 | A property hashes to its name and the text of what it holds. |
| MapKeys.HashByIndex | src/main/javascript/mongodb/types.js:447-450 | An array hashes like the object of its elements by index. |
| MapKeys.JoinedSplit | src/main/javascript/mongodb/types.js:449 | An array as a property is its elements with commas between. |
| MapKeys.JoinedOne | src/main/javascript/mongodb/types.js:449 | Null and undefined leave nothing there, and a NumberInt names itself. |
| MapKeys.HashAlikeIff | src/main/javascript/mongodb/types.js:436-455 | Two arrays, or two objects, alike once their NumberInts are read as numbers hash alike if and only if the NumberInts in arrays that are properties stand at the same places in both. |
| MapKeys.EqualKeysIff | src/main/javascript/mongodb/types.js:436-483 | The same holds of two distinct arrays or objects that `friendlyEqual` equates, if their keys are safe and nothing mentions NumberInt calls. |
| MapKeys.ShellKeys | src/main/javascript/mongodb/types.js:436-483 | On arrays and objects with safe keys, no mention of NumberInt calls, and NumberInts as properties only, `friendlyEqual` is an equivalence that the hash respects. |
| MapKeys.HashSeparatesIff | src/main/javascript/mongodb/types.js:436-483 | A value laid out like the same without NumberInts is equated with it, and hashes like it if and only if NumberInts are in it as properties only. |
| MapKeys.HashSeparates | src/main/javascript/mongodb/types.js:436-483 | [[NumberInt(n)]] and [[n]] are answered equal and hash apart. |
| MapKeys.CoercionSeparates | src/main/javascript/mongodb/types.js:436-483 | Given that `==` answers true of them, so are null and undefined, 0 and the empty string, 5 and [5]. |
| Shuffle.ShuffleInPlace | src/main/javascript/mongodb/types.js:137-145 | The swaps in place lead to the order the draws determine, a permutation of what was there. |
| Shuffle.ShuffleStep | src/main/javascript/mongodb/types.js:138-143 | The first place gets the element the first draw names, and the rest is shuffled with the old first element in its stead. |
| Shuffle.ShuffledPermutes | src/main/javascript/mongodb/types.js:137-145 | Whatever the choices, the order is a permutation. |
| Shuffle.ShuffledInjective | src/main/javascript/mongodb/types.js:137-145 | For distinct elements different choices lead to different orders. |
| Shuffle.ShuffledSurjective | src/main/javascript/mongodb/types.js:137-145 | Every permutation is reached by some choices. |
| Shuffle.OneWayEach | src/main/javascript/mongodb/types.js:137-145 | So each order comes from exactly one sequence of choices, and uniform choices give uniform orders. |
| Shuffle.RandInt | src/main/javascript/mongodb/utils.js:868 | A choice is the whole part of the draw times n, below n. |
| Options.RoundTripIff | src/main/javascript/mongodb/servers.js:268-344 | For every object of strings: `arrToOpts` of `arrOptions` gives it back if and only if no key is a logical option or an inherited name, no value begins with a dash, and every key made of v's is followed by `verbose`. |
| Options.NumericComesBack | src/main/javascript/mongodb/servers.js:301-309 | A single numeric `v` or `verbose` above 0 comes back as `verbose`, cut to 10, beside its own flag, and all else as it was. |
| Options.Decodes | src/main/javascript/mongodb/servers.js:268-344 | What comes back from any object at all, as the settings received one after another. |
| Options.ArrOptions | src/main/javascript/mongodb/servers.js:268-325 | The encoder as it runs on objects, arrays and strings: the arguments, the name with its version, and when it throws. |
| Options.ArrayPassedIff | src/main/javascript/mongodb/servers.js:272-321 | An array of strings comes out as the arguments it holds if and only if it is empty. |
| Options.ArrToOpts | src/main/javascript/mongodb/servers.js:327-349 | The decoder as it runs gives what scanning the arguments gives. |
| OptionLaws.SettingArguments | src/main/javascript/mongodb/servers.js:293-315 | The arguments of one setting, spelled out: nothing for logical and inherited names, for `nopreallocj` in 1.x, undefined and null; `-v...v` of at most 10; else `--key` and the value unless it is 0, false or empty. |
| OptionLaws.ArgumentsSplit | src/main/javascript/mongodb/servers.js:293-317 | The arguments of an object are those of its settings, in order. |
| OptionLaws.FirstArgument | src/main/javascript/mongodb/servers.js:276-278 | The first argument is the name, with a dash and the version behind it if one other than `latest` is given. |
| OptionLaws.ThrowsIff | src/main/javascript/mongodb/servers.js:281-298 | It throws if and only if a key hides `hasOwnProperty`, or a version that is no string and not falsy comes with a key that is neither logical nor inherited. |
| OptionLaws.ScanSet | src/main/javascript/mongodb/servers.js:327-349 | Over every list of arguments: a key has what the last argument that sets it says, the next argument unless that has a dash, or the number of v's for `verbose`. |
| OptionLaws.ScanUnset | src/main/javascript/mongodb/servers.js:327-349 | And a key that none sets is not there. |
| OptionLaws.NamedIff | src/main/javascript/mongodb/servers.js:331-332 | An argument names an option if and only if it is the name behind one dash or two. |
| OptionLaws.DecodedIs | src/main/javascript/mongodb/servers.js:268-349 | For every object and every key: what comes back there is what the last setting that sets the key puts there, numbers, flags, verbosity, old binaries and values with a leading dash included. |
| OptionLaws.PlainComesBack | src/main/javascript/mongodb/servers.js:268-349 | For every object without values that begin with a dash: each key that is passed on and has no say in the verbosity comes back with its value spelled out, true as `true`, 0, false and the empty string as empty, undefined and null not at all. |
| OptionLaws.SpelledNumber | src/main/javascript/mongodb/servers.js:311-314 | A number spelled out is read as the same number, and is empty only for 0. |
| OptionLaws.NegativeLost | src/main/javascript/mongodb/servers.js:311-340 | A negative number comes back as empty, and its numeral as an option. |
| Options.CommandLine | src/main/javascript/mongodb/servers.js:546-553 | The options of a started process, encoded and decoded. |
| Ports.MongoRunner.NextOpenPort | src/main/javascript/mongodb/servers.js:211-219 | The least unused port from 27000 on, marked used; the loop ends within as many steps as there are used ports. |
| Ports.MongoRunner.MongoOptions | src/main/javascript/mongodb/servers.js:399-414 | The given port, or the least that no process holds; the ports marked used are those held. |
| Ports.MongoRunner.StopMongod | src/main/javascript/mongodb/servers.js:615-637 | A stop frees the port it names and no other. |
| Ports.DistinctIff | src/main/javascript/mongodb/servers.js:399-414 | Over every run of starts and stops no port is ever held twice if and only if no start names a port held then. |
| Ports.AutomaticRange | src/main/javascript/mongodb/servers.js:211-219 | With automatic ports only, all of them lie below 27000 plus the most processes there were at once. |
| Paging.Shell.PrintAll | src/main/javascript/mongodb/query.js:334-359 | A query printed, then `it` while there is more of it: exactly the pages of what the query has left, max(1, ceil(m / B)) of them, and no saved cursor at the end, whatever was saved before; an only document that is an error is printed as one and leaves the saved cursor. |
| Paging.Shell.ShellPrint | src/main/javascript/mongodb/query.js:334-359 | One page, whether there is more, and which cursor is saved; an exception leaves the saved cursor as it was. |
| Paging.Shell.It | src/main/javascript/mongodb/utils.js:715-721 | The next page, or that there is no cursor. |
| Paging.PagesShow | src/main/javascript/mongodb/query.js:334-352 | The pages show every document once, in order, with as many pauses as pages less one. |
| Paging.PageCount | src/main/javascript/mongodb/query.js:334-352 | One page for nothing, else the fewest that hold n documents. |
| Paging.DBQuery.TotalIs | src/main/javascript/mongodb/query.js:108-132 | What a query is to return: the documents after the first `skip`, as many as the limit allows, in order. |
| Paging.DBQuery.Next | src/main/javascript/mongodb/query.js:117-132 | The next document, once; an exception for an error document that is all there is. |
| Paging.DBQuery.HasNext | src/main/javascript/mongodb/query.js:108-115 | True exactly while documents are left under the limit; nothing is consumed. |
| Paging.DBQuery.ToArray | src/main/javascript/mongodb/query.js:150-159 | All that was left, in order, kept for the next call. |
| Paging.DBQuery.ItCount | src/main/javascript/mongodb/query.js:202-209 | How many were left. |
| Paging.DBQuery.CountReturn | src/main/javascript/mongodb/query.js:187-197 | The number of documents the query returns if and only if skip does not pass the matches. |
| Sharding.ChunkCounts | src/main/javascript/mongodb/shardingtest.js:789-809 | A right count for every listed shard and every shard with a chunk of the namespace, and no others. |
| Sharding.Conserved | src/main/javascript/mongodb/shardingtest.js:789-809 | The counts add up to the chunks of the namespace. |
| Sharding.ChunkDiff | src/main/javascript/mongodb/shardingtest.js:811-823 | The largest count, 0 for none, less the smallest, at most 100000000. |
| Sharding.SpreadIff | src/main/javascript/mongodb/shardingtest.js:811-823 | That is the spread of the counts if and only if some count is at most 100000000. |
| Sharding.BalanceIff | src/main/javascript/mongodb/shardingtest.js:811-837 | With k shards and N chunks the difference is below 2 if and only if every shard has floor(N / k) or ceil(N / k) chunks and at most 100000001. |
| Sharding.IsBalanced | src/main/javascript/mongodb/shardingtest.js:831-835 | The test `awaitBalance` repeats, so understood. |

## Left out

- Characters are Unicode scalar values, not UTF-16 code units: strings with lone surrogate halves are not modelled.
- A printed number is the text JavaScript gives for it; which double that is, and the rounding of longs to doubles, is not modelled.
- JsonPrinter.ToJson: prints null, undefined, booleans, numbers, strings, arrays, objects and NumberInts; other objects (dates, ObjectId, regular expressions) and functions are not modelled.
- JsonPrinter.ToJsonObject: errors, MinKey and MaxKey and user-defined `tojson` methods are not dispatched.
- JsonPrinter.PrintFields: `_simpleKeys` and the skipped `DB` and `DBCollection` prototypes are not modelled.
- Text.ZeroPad: whole numbers only, which is what the accessors of a date give.
- Attempt.Attempt: times are whole and not negative.
- A key `__proto__`, the order JavaScript gives to keys that are array indices, and properties inherited by iteration.
- FriendlyEqualExact.FriendlyEqualIff: what JavaScript's `==` answers is the parameter `loose`; which primitives, and which arrays, objects and NumberInts with a primitive, it equates by coercion is not modelled.
- Decimal fractions of seconds in `ISODate` are taken exactly and rounded to the millisecond; the binary rounding of `parseFloat` is not modelled.
- ISODate on values that are not strings.
- MapReduce.Run: `$reduce` is taken to ignore order and to accept its own results, and to return a value without a length and a first element, so the branch that keeps an array, and takes a non-empty string apart, is not modelled.
- MapReduce.MR.DoReduce: the same branch is left out here.
- MapReduce.MR.ReduceSlot: and here.
- Slots of `$arr` are values in a sequence; the class updates the sequence, so aliasing between slots is not modelled.
- HashMap.Map.Find: any hash that respects the key equivalence will do, and it may throw; for the shell's own pair see MapKeys.ShellKeys and MapKeys.CoercionSeparates.
- MapKeys.HashIff: text that properties give is modelled for plain values; an own `toString` under a property, and properties added to the prototypes of arrays and objects, are not.
- Regular expressions in BSON keep their source and their set of flags; which flags Java knows is not modelled. Base64 and hexadecimal forms of binary data are not modelled.
- Both converters run on finite values; cyclic JavaScript objects do not end.
- TimestampGenerator.GeneratedIncreaseIff: runs in which the counter overflows Java's int are not covered; the same holds of the other results on whole runs.
- Failover: the primary stays the primary while replication is awaited, and members are never replaced. How `getMaster` finds it, and the sleeping itself, are not modelled; only tries are counted.
- Options.Decodes: option values are undefined, null, strings, whole numbers and booleans; objects, such as `pathOpts`, and fractions are not modelled.
- Options.ArrOptions: arrays hold strings only; an array-like object that is no object by `typeof` is a string here.
- Ports.MongoRunner.MongoOptions: saved options, restarts and run identifiers; a port found there counts as a given port.
- Ports.MongoRunner.StopMongod: a port is a number here, not a connection; by run identifier the source calls `savedOptions`, which is no function.
- Negative limits, batch sizes, and `objsLeftInBatch`: the server's cursor is a sequence and a position.
- Paging.Shell.ShellPrint: the timing line of the verbose shell is not modelled.
- Errors of the `count` command.
- Shard names that are inherited property names.
- Rhino's scopes and prototypes, the Java driver, processes and authentication, help texts, statistics, `groupeval`, `Geo` and MD5.
