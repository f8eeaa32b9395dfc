# Email record parsing and domain extraction, in Dafny

This project models the record-parsing core of an Enron-style email analysis script,
and proves properties of that model. A raw email message goes through five stages:

1. Six literal rewrites run over the whole text (`PrePass`).
2. The text is split into lines. The 17 expected header slots are filled by inserting
   a placeholder `Name: ` line wherever a slot's line does not start with its field
   name (`Splitter`).
3. Each of the 17 slot lines is split at its first colon into a dictionary entry
   (`Headers`).
4. The remaining lines are joined into one body and cleaned by an ordered cascade of
   eighteen regular-expression substitutions (`Cleaning`, on top of the matcher in
   `Regex`).
5. The record is the header dictionary plus `"body"` (`Record`).

The second component is `extract_domain` (`Domains`). For each address cell it
collects the set of domains captured by `@(.*)[.]` in its comma-separated fragments.
One fragment without a domain empties the whole row.

Strings are `seq<char>`. Python's `str.split`, `join`, `strip` and `replace` live in
`Text`. Python's `re.search` and `re.sub` are modelled by a backtracking matcher in
`Regex`. That matcher is exact for the pattern shapes the script uses: an alternation
of sequences of quantified single-character classes, with greedy and lazy repeats.
All sixteen patterns compiled at main.py:126-141, and the domain pattern of
utils.py:15, are written out as data of that matcher.

Some behaviour of the code is easy to misread; the model follows the code:
- The slot check at main.py:153 compares only the first `len(name)` characters of the
  line with the field name. No colon is required after the name.
- Field-header tokens are removed from the body (main.py:114-120, 128, 167) only in
  their written, all-lower and all-upper spellings, plus `Sent`. A mixed spelling
  such as `SUBject:` stays.
- A message with too few lines is not padded. `temp_str[pos]` at main.py:153 raises
  `IndexError`, which nothing catches, so the whole run stops. Deleting the last
  header line (`X-FileName`) of a message with no body lines is such a case
  (`RepairDropsLast`). Deleting any other header line gets a placeholder, and so does
  deleting `X-FileName` when a body line follows that does not itself start with
  `X-FileName` (`RepairDropsField`).
- In `extract_domain` (utils.py:14-18) the `try` surrounds the whole list
  comprehension, so one fragment with no match empties the whole row, not only that
  fragment.
- Steps 14-15 of the cascade (main.py:181-182) are repeated as steps 16-17
  (main.py:183-184). Step 15 leaves no two whitespace characters side by side, and on
  such text the pair of steps settles: running it again on its own output changes
  nothing (`SymbolsThenSpacesSettles`). So the cleaned body is a fixed point of steps
  16-17 (`CascadeSettled`). The pair is not idempotent on arbitrary text: a symbol,
  two spaces and a symbol, such as `>  >`, become `> >` and then a single space
  (`SymbolsThenSpacesNotStable`). The script never passes such text to main.py:183.

## Model

| member | source | states |
|---|---|---|
| Text.Split | main.py:149 | `str.split` on one character: at least one piece, and no piece contains the separator |
| Text.JoinSplit | main.py:149 | joining the split pieces with the same separator gives the original text back |
| Text.SplitJoin | main.py:158-159 | splitting separator-free pieces after joining them gives the pieces back |
| Text.SplitCount | main.py:158-159 | a text without the separator is a single piece; a text with it splits into at least two |
| Text.SplitFirst | main.py:158-159 | the first piece, the separator and the rejoined rest make up the original text |
| Text.SplitPartsAreInfixes | utils.py:16 | every piece of a split occurs in the original text |
| Text.JoinAvoids | main.py:164 | joining pieces without a character, using a different separator, gives text without that character |
| Text.Strip | main.py:159 | `str.strip`: the result is a contiguous piece of the input, it neither starts nor ends with whitespace, and everything cut away is whitespace |
| Text.StripIdempotent | main.py:187 | stripping twice equals stripping once |
| Text.StripTrimmed | main.py:187 | text that neither starts nor ends with whitespace is left alone by strip |
| Text.Lower | main.py:119-120 | `str.lower` keeps the length, leaves no capital letter, and agrees with the input character by character once case is ignored |
| Text.Upper | main.py:119-120 | `str.upper` keeps the length, leaves no small letter, and agrees with the input character by character once case is ignored |
| Text.LowerOfUpper | main.py:119-120 | lower-casing the upper-cased text gives the lower-cased text |
| Text.UpperOfLower | main.py:119-120 | upper-casing the lower-cased text gives the upper-cased text |
| Text.Join | main.py:164 | `str.join`: the text starts with the first piece, and a separator follows it exactly when there is a second piece; no pieces give the empty text |
| Text.StartsWithChars | main.py:153 | the slice comparison `line[0:len(name)] == name` holds exactly when the line is at least as long as the name and agrees with it at every position of the name |
| Text.SpaceChars | main.py:127 | the whitespace class holds space, tab, newline, carriage return, vertical tab and form feed, and no letter, digit or `_` |
| Text.Replace | main.py:104-110 | `str.replace`: never longer when the replacement is no longer than the target; unchanged when the target does not occur; introduces only the replacement's characters |
| Text.ReplaceSelf | main.py:104-110 | replacing a piece by itself changes nothing |
| Regex.Sub | main.py:167-184 | `re.sub`: for a replacement no longer than the shortest match, the result is never longer than the input, and it holds only the input's and the replacement's characters |
| Regex.Search | utils.py:15 | the leftmost match: the pattern matches at the reported start with the reported length, nowhere before it, and nowhere at all when there is no result |
| Regex.ReplaceIsSub | main.py:104-110 | `str.replace` equals `re.sub` on the escaped literal |
| Regex.LiteralMatch | main.py:128 | a literal matches exactly where the text continues with it, taking exactly its length |
| Regex.MatchAt | main.py:167-184 | a match of a pattern at the start of a text is at least as long as the pattern's shortest alternative and ends inside the text |
| Regex.MatchNodes | main.py:167-184 | a match of a sequence of quantified classes from position `i` covers at least the sum of their minimum counts and ends inside the text |
| Regex.GreedyFrom | main.py:127 | backtracking a greedy repeat from its longest run down to its minimum yields only matches covering at least the minimum counts and ending inside the text |
| Regex.LazyFrom | main.py:126 | extending a lazy repeat from its minimum upwards yields only matches covering at least the minimum counts and ending inside the text |
| Regex.GreedyReaches | main.py:135 | a greedy repeat finds a match when any count it tries, from its longest run down, lets the rest of the sequence match |
| Regex.SubNoMatch | main.py:167-184 | with no match anywhere, the substitution returns the text unchanged |
| Regex.ShortestMatchAtLeast | main.py:126-141 | a pattern whose every alternative needs at least `m` characters can match no fewer than `m` |
| Schema.Placeholder | main.py:154 | the inserted line starts with its slot's field name |
| Schema.NamesFacts | main.py:114-118 | there are 17 slots, and every field name has at least two characters and no colon or newline |
| Schema.OneNamePerLine | main.py:114-116 | no field name is a prefix of another, so a line starts with at most one of them |
| PrePass.Clean | main.py:104-110 | the six rewrites never lengthen the message, introduce no character except a space, and leave a message with none of the six pieces unchanged |
| Splitter.Fill | main.py:152-154 | filling slots from `pos` on succeeds whenever a line is left for every remaining slot; a failure names a slot past the lines it was given; a success never loses a line |
| Splitter.Repair | main.py:152-154 | with at least 17 lines the repair succeeds; a failure names a slot past the original lines; on success every slot starts with its field name and no line is lost |
| Splitter.RepairShape | main.py:152-154 | after a successful repair every slot starts with its field name; inserted slots hold exactly `name: `; the original lines keep their order in the other slots; with `k` insertions the lines after the slots are the original `lines[17-k:]` |
| Splitter.FillKept | main.py:152-154 | from any slot on, the slots that keep an original line hold the next lines of the message, in order |
| Splitter.FillTail | main.py:152-154 | from any slot on, the lines after the slots are exactly the lines the slots did not take |
| Splitter.RepairAligned | main.py:152-154 | a message whose slots already start with their names is returned unchanged |
| Splitter.RepairIdempotent | main.py:152-154 | repairing the repaired lines changes nothing |
| Splitter.FillPrefix | main.py:152-154 | slots whose lines already fit are taken over one by one, and the fill carries on after them |
| Splitter.FillDropsOne | main.py:152-154 | for any name list, deleting the line of any slot `k` from aligned lines, when a next line exists and does not fit slot `k`, gives the lines with slot `k` replaced by its placeholder |
| Splitter.RepairDropsField | main.py:152-154 | deleting the header line of slot `k` from a message whose slots all fit gives the message with that line replaced by its placeholder `name: `, for every slot but the last, and for the last (`X-FileName`) when a body line follows that does not start with `X-FileName` |
| Splitter.RepairDropsLast | main.py:152-153 | deleting the last header line of a 17-line message whose slots all fit leaves the repair one line short: it fails at slot 16 |
| Splitter.RepairInPlace | main.py:152-154 | the in-place insertion loop computes the same result as the slot-by-slot definition, with aligned slots on success and the same failure index otherwise |
| Headers.SplitHeader | main.py:158-159 | the key has no colon; with a colon in the line, the line is `key + ":" + rest` and the value is `rest` stripped; without one, the key is the whole line and the value is empty |
| Headers.SlotKey | main.py:153-158 | the key of a line starting with a colon-free field name starts with that name |
| Headers.PlaceholderHeader | main.py:154-159 | a placeholder line `Name: ` yields the key `Name` and an empty value |
| Headers.BuildDict | main.py:157-160 | every pair's key is in the dictionary, and every dictionary key comes from some pair |
| Headers.BuildDictLastWins | main.py:157-160 | a key keeps the value of its last occurrence |
| Headers.HeaderMap | main.py:157-160 | the header dictionary's keys are exactly the lines' keys, and a key holds the value of the last line that has it |
| Cleaning.FieldHeadersNeedThree | main.py:128 | every field-header token is at least three characters long |
| Cleaning.HtmlTagsNeedTwo | main.py:126 | a tag or `&nbsp;` match is at least two characters long |
| Cleaning.SpaceNeedTwo | main.py:127 | a whitespace-run match is at least two characters long |
| Cleaning.EmailsNeedTwo | main.py:129 | an address match is at least two characters long |
| Cleaning.FwdsNeedTwo | main.py:130 | a forward-banner match is at least two characters long |
| Cleaning.UnintendedNeedTwo | main.py:131 | an unintended-send banner match is at least two characters long |
| Cleaning.DashesNeedTwo | main.py:132 | a dash-run match is at least two characters long |
| Cleaning.WarnNeedTwo | main.py:133 | a transmission-warning match is at least two characters long |
| Cleaning.DateTimeNeedTwo | main.py:134 | a date-time match is at least two characters long |
| Cleaning.SymbolsNeedTwo | main.py:135 | a symbol-run match is at least two characters long |
| Cleaning.AddrNeedTwo | main.py:136 | a state-and-ZIP match is at least two characters long |
| Cleaning.PhoneFaxNeedTwo | main.py:137 | a phone or fax match is at least two characters long |
| Cleaning.CountryNeedTwo | main.py:138 | a parenthesised-area-code phone match is at least two characters long |
| Cleaning.LinkNeedTwo | main.py:139 | a link match is at least two characters long |
| Cleaning.CodesNeedTwo | main.py:140 | an `=NN` code match is at least two characters long |
| Cleaning.LongNeedTwo | main.py:141 | a very long token match is at least two characters long |
| Cleaning.RunMatch | main.py:127 | a class-run pattern `[c]{m,}` matches at the start exactly when the run there is at least `m` long, and then takes the whole run |
| Cleaning.CollapseRuns | main.py:132 | replacing every run of two or more class members by one character leaves no two members side by side |
| Cleaning.CollapseStable | main.py:182-184 | text with no two class members side by side is unchanged by the run collapse |
| Cleaning.DashPass | main.py:172 | right after the dash pass there is no `--`; the text is no longer, and gains no character except a space |
| Cleaning.SpacePass | main.py:182 | after the whitespace pass no two whitespace characters are side by side; the text is no longer, and gains no character except a space |
| Cleaning.SpacePassIdempotent | main.py:182-184 | a second whitespace pass changes nothing |
| Cleaning.SpacePassKeeps | main.py:184 | text without adjacent whitespace is left alone by the whitespace pass |
| Cleaning.CodeMatch | main.py:140 | `[=][\d]+` matches at the start exactly when an `=` is followed by a digit, and then takes the whole digit run |
| Cleaning.CodeFreeHead | main.py:179 | removing codes from a text that does not start with a digit gives a text that does not start with a digit |
| Cleaning.CodesRemoved | main.py:179 | after the code pass no `=` is directly followed by a digit |
| Cleaning.CodePass | main.py:179 | the code pass never lengthens the text, adds no character, and leaves no `=` followed by a digit |
| Cleaning.Stage | main.py:167-184 | every cascade step replaces matches of at least two characters by a single space or by nothing |
| Cleaning.ApplyStage | main.py:167-184 | one cascade step never lengthens the text and gains no character except a space |
| Cleaning.StageEffects | main.py:172-184 | right after the dash step there is no `--`, right after the code step no `=` followed by a digit, and right after each whitespace step no adjacent whitespace |
| Cleaning.CascadeFrom | main.py:167-184 | the remaining steps never lengthen the text, gain no character except a space, and leave no adjacent whitespace whenever a whitespace step is among them |
| Cleaning.Cascade | main.py:167-184 | the whole cascade never lengthens the body, gains no character except a space, and leaves no two whitespace characters side by side |
| Cleaning.SymbolsThenSpaces | main.py:181-184 | a symbol step followed by a whitespace step never lengthens the text and leaves no two whitespace characters side by side |
| Cleaning.PairFirstRound | main.py:135 | a symbol-pair pattern finds no match in a member, two spaces and a member, so the text stays |
| Cleaning.PairSecondRound | main.py:135 | a symbol-pair pattern matches a member, one space and a member as a whole, so the text becomes one space |
| Cleaning.SpacesFirstRound | main.py:127 | the whitespace step turns a non-space, two spaces and a non-space into the two outer characters around one space |
| Cleaning.SpacesSecondRound | main.py:127 | the whitespace step leaves a single space alone |
| Cleaning.SymbolNotSpace | main.py:135 | no character of the symbol class is whitespace |
| Cleaning.SymbolsThenSpacesNotStable | main.py:181-184 | for any two symbols `a` and `b`, steps 16-17 turn `a  b` (adjacent whitespace, which step 15 never leaves) into `a b` and that into a single space |
| Cleaning.PairMatch | main.py:135 | `[S]+\s?[S]+` matches at the start of a text exactly when it starts with two members, or with a member, one whitespace character and a member |
| Cleaning.PairTail | main.py:135 | after the first run, `\s?[S]+` matches exactly when a member, or one whitespace character and a member, follows |
| Cleaning.SpreadNoPair | main.py:183 | in text where no two symbols are separated by whitespace alone, the symbol pattern matches nowhere |
| Cleaning.SpaceSubSpread | main.py:184 | the whitespace step keeps the first non-whitespace character, and keeps symbols apart that were apart |
| Cleaning.SurvivorGap | main.py:181 | a symbol the symbol step keeps is followed in the output by whitespace and a non-symbol, or by nothing but whitespace |
| Cleaning.PairSubSpread | main.py:181 | on text without adjacent whitespace, the symbol step leaves no two symbols separated by whitespace alone |
| Cleaning.SymbolsThenSpacesSettles | main.py:181-184 | on text without adjacent whitespace, running steps 16-17 again on their own output changes nothing |
| Cleaning.TailSettled | main.py:167-184 | the output of the steps from any step up to 16 on is left unchanged by another round of steps 16-17 |
| Cleaning.CascadeSettled | main.py:167-184 | running `clean_multi_symbols` and `clean_multi_space` once more on the cascade's output changes nothing |
| Cleaning.StripInside | main.py:187 | stripping keeps only the text's characters and creates no adjacent whitespace |
| Cleaning.JoinedLine | main.py:164 | joining newline-free lines with spaces gives a text without a newline |
| Cleaning.Body | main.py:163-187 | the cleaned body is no longer than the joined lines, has no newline when the lines have none, neither starts nor ends with whitespace, and has no two whitespace characters side by side |
| Record.Lines | main.py:149 | the message splits into at least one line, no line holds a newline, and joining them back gives the rewritten message |
| Record.BodyLinesOneLine | main.py:163 | the lines after the 17 repaired slots are original lines, so none holds a newline |
| Record.Assemble | main.py:157-187 | the record always has a `body` entry, which is newline-free when the body lines are, trimmed, and free of adjacent whitespace |
| Record.ParseMessage | main.py:148-190 | 17 or more lines always give a record; a failure names a slot past the last line; a record's body is one trimmed line without adjacent whitespace |
| Record.SlotKeys | main.py:157-158 | each slot's key starts with that slot's field name |
| Record.SlotKeysDistinct | main.py:157-160 | the 17 slots yield 17 different keys, none of them `body` |
| Record.HeaderEntries | main.py:157-160 | the header dictionary has exactly one entry per slot, holding that slot's value |
| Record.RecordEntries | main.py:157-187 | a record holds exactly one entry per slot plus `body`, and nothing else |
| Record.MessageEntries | main.py:149-187 | the record of a message holds one entry per repaired slot plus `body`, and nothing else; with `k` fields inserted, the body is the body of the original lines from `17 - k` on |
| Record.MissingFieldsEmpty | main.py:152-160 | a field the message lacked appears under its own name with an empty value |
| Record.AlignedMessage | main.py:152-164 | a message whose slots already start with their names is parsed from its own lines, with nothing inserted |
| Record.ParseEach | main.py:146-190 | one record per message in order; the run aborts at the first failing message, reporting its index, and fails exactly when some message fails |
| Record.ParseAll | main.py:146-190 | the loop over all messages: one record per message in order, or the index and error of the first message with too few lines |
| Domains.DomainNeedsTwo | utils.py:15 | a match of `@(.*)[.]` is at least two characters long |
| Domains.Domain | utils.py:15 | a captured domain is a substring of its fragment |
| Domains.Group | utils.py:15 | the group of a match is present exactly when there is a match, occurs in the fragment, and is two characters shorter than the match |
| Domains.Inner | utils.py:15 | the group is present exactly when the pattern is found, and occurs in the fragment |
| Domains.MatchDomainAt | utils.py:15 | on a line whose last `.` stands at `d`, the pattern matches at a position exactly when an `@` stands there and `d` comes after it, and the match ends just after `d` |
| Domains.DomainHits | utils.py:15 | on a line whose first `@` stands at `a` and last `.` at `d`, the pattern matches at `a` and nowhere before when `a < d`, and nowhere at all otherwise |
| Domains.SearchDomain | utils.py:15 | on a line whose first `@` stands at `a` and last `.` at `d`, the leftmost match runs from `a` to just after `d`, and there is none when `d` does not follow `a` |
| Domains.InnerOf | utils.py:15 | a match from `a` to just after `d` has the group strictly between `a` and `d` |
| Domains.DomainBetween | utils.py:15 | on a line whose first `@` stands at `a` and last `.` at `d`, the domain is the text strictly between them, and there is none when `d` does not follow `a` |
| Domains.DomainOfAddress | utils.py:15 | `user@host.tld` with no `@` in `user` and no `.` in `tld` has the domain `host`, dots included (`billw@calpine.no.com` gives `calpine.no`) |
| Domains.Gather | utils.py:14-18 | the set of all per-fragment domains, or nothing as soon as one fragment has none; never more domains than fragments |
| Domains.GatheredInfixes | utils.py:14-18 | every domain gathered from the fragments of a cell occurs in the cell |
| Domains.RowDomains | utils.py:14-18 | non-text cells give no domains; for a text cell (`RowSpec`): any fragment without a domain empties the row; otherwise every fragment's domain is in the row; every domain in the row is the domain of some fragment and a substring of the cell; never more domains than fragments |
| Domains.GatheredRow | utils.py:14-18 | the gathered set of fragment domains meets the row description `RowSpec` |
| Domains.MissingRow | utils.py:14-18 | when some fragment has no domain, the empty row meets the row description `RowSpec` |
| Domains.EmptyCell | utils.py:14-18 | an empty cell gives no domains |
| Domains.ExtractDomain | utils.py:11-20 | one domain set per row, in row order: none for a non-text row, and for a text row a set meeting `RowSpec` (each domain comes from a fragment and occurs in the cell, all fragments' domains when each has one, none when some fragment has none) |

## Left out

- Reading the CSV, the pandas data frames, the prints and the positional column rename (main.py:89-94, 193-196) are I/O and library plumbing.
- The `Date` to `date` and `time` derivation goes through `datetime.strptime`, a library parser whose acceptance rules are not part of this model.
- `reformat_email_func`, `one_to_one_mapping`, `get_entities` and `get_relation` are not part of this model, because their bodies are not available. The same goes for the Sankey tables, NLP and plotting built on them.
- `\w` and `\d` are modelled as ASCII only. Python's `str` patterns also accept other Unicode letters and digits. `\s` and `strip` use Python's full `isspace` set.
- `str.lower` and `str.upper` are modelled on ASCII letters only. The field names they are applied to are ASCII.
- The matcher covers only the pattern shapes the script compiles: alternations of quantified single-character classes. Groups, anchors and backreferences are outside it.
- Record.Assemble: the record is a `map`, so the insertion order of Python's dict (the 17 slot keys in order, then `body`) is not modelled; the positional column rename at main.py:193-196 relies on that order.
- Domains.RowDomains: the row is a set, not Python's `list(set(...))`. The list order depends on string hashing, which is randomised per process.
- Domains.DomainBetween: the capture is described in positional terms only for fragments without a newline. `.` does not cross a newline, and a field split on commas can in principle still hold one.
- Domains.Domain: the domain is `None` where Python's `[0]` raises `IndexError` and the `except` takes over.
- Record.ParseAll: the uncaught `IndexError` is modelled as an error result carrying the message index. Records built before it are dropped, as when the script dies.
- Cleaning.Cascade: the backtracking patterns (tags, addresses, banners, warnings, dates, links, phones, address codes, long tokens, symbol runs) are stated only through their length bound and character set. Exactly which text each one removes is given by the matcher's definition and not restated as a separate property.
- Cleaning.DashPass: the `--`-free guarantee holds right after the dash step. Later steps that delete text can bring two dashes together again, so the final body carries no such promise.
- Domains.Cell: a non-text cell (pandas `NaN`) is one constructor. Every way `.split` can fail on it is folded into that case.
