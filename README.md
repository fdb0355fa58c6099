# G-NAF importer: table naming, COPY escaping and the elapsed-time report

`import_gnaf.py` loads the pipe-separated data files of the Geocoded National
Address File (G-NAF) into PostgreSQL. Its loading logic is a sequence of
database calls, but three pieces of it compute values:

- **Destination table names.** A file under `Standard/` is named
  `<STATE>_<ENTITY>_psv.psv`. Its table is the base name with every
  `_psv.psv` removed and then everything up to and including the first
  underscore removed (line 41). A file under `Authority Code/` is named
  `Authority_Code_<ENTITY>_psv.psv`. Its table is the base name with every
  `Authority_Code_` and then every `_psv.psv` removed (line 58).
- **The backslash repair.** One known file, `NSW_ADDRESS_SITE_psv.psv`,
  contains a backslash, which PostgreSQL's COPY text format reads as an
  escape character. Before loading that file, and only that one, the
  importer runs `sed` over it to double every backslash (lines 45-49).
- **The closing report.** The run time is the difference of two
  `datetime.now()` readings. It is split into minutes and seconds with
  `divmod(..., 60)` (lines 96-97).

The model has four modules:

- `PyText` (`text.dfy`) defines Python's `str.replace` exactly: left to
  right, non-overlapping matches, no rescan of replaced text, and the empty
  pattern inserting the replacement everywhere. It also defines substring
  occurrence and a set of lemmas for reasoning about a replacement one
  match at a time.
- `TableNames` (`table_names.dfy`) holds both table-name derivations and
  the lemmas about them. `StripStateLabel` models the anchored
  `re.sub(r"^[^_]*_", "", ...)`.
- `CopyEscaping` (`escaping.dfy`) holds the backslash doubling. It is
  proved against `CollapsePairs`, which is how COPY reads a doubled
  backslash back. `CopyInput` combines the doubling with the file test of
  the `Standard/` loop.
- `ElapsedTime` (`elapsed.dfy`) models `timedelta` normalisation, Python's
  flooring `divmod` and the split the report prints.

The naming lemmas carry hypotheses that plain file-name patterns do not
state:

- **Standard names.** The round trip `<STATE>_<ENTITY>_psv.psv` ↦ `<ENTITY>`
  holds when the state label has no underscore and the entity neither
  contains `_psv.psv` nor starts with `psv.psv`.
  `StandardTableNameEarlySuffix` shows one way the round trip fails: for
  a state label and a remainder both free of underscores, the state label
  ends up in the table name.
- **Authority names.** Besides not containing either removed string, the
  entity must not end with `Authority_Code`. Otherwise the prefix matches
  again across the end of the entity and takes the suffix's underscore
  with it. `AuthorityTableNameBoundaryMatch` proves this for an entity
  whose part before `Authority_Code` has no `A` and no underscore.

Whether a particular G-NAF release meets these hypotheses depends on its
file names, which the importer does not check. The model assumes they do.

## Model

| member | source | states |
|---|---|---|
| PyText.ReplaceAll | import_gnaf.py:41 | `str.replace` with a non-empty pattern and a replacement no longer than it never lengthens the text |
| PyText.InsertEverywhere | import_gnaf.py:41 | modelled so that `str.replace` is complete, though line 41's pattern is never empty; with an empty pattern, the output is as long as the text plus one copy of the replacement per character and one more |
| PyText.InsertedAt | import_gnaf.py:41 | (empty-pattern branch, kept for completeness; line 41 never reaches it) with an empty pattern, the `i`-th copy of the replacement stands at `Slot(i)`, right before the `i`-th character of the text |
| PyText.InsertedLast | import_gnaf.py:41 | (empty-pattern branch, kept for completeness; line 41 never reaches it) with an empty pattern, one last copy of the replacement ends the output |
| PyText.ContainsUnfold | import_gnaf.py:41 | a pattern occurs in a non-empty text iff the text starts with it or it occurs in the text's tail |
| PyText.ReplaceAllNoMatch | import_gnaf.py:41 | a text without the pattern is returned unchanged |
| PyText.ReplaceAllFirstMatch | import_gnaf.py:41 | the first match is replaced, the text before it is kept verbatim and the rest is processed after it |
| PyText.NoMatchAtFront | import_gnaf.py:41 | a text with no match before a given occurrence does not start with the pattern, and its tail keeps that property |
| PyText.ReplaceAllSkipsPrefix | import_gnaf.py:41 | characters that cannot start a match pass through unchanged |
| PyText.NoMatchBeforeTail | import_gnaf.py:41 | a pattern whose first character does not recur in it cannot straddle the end of a text free of it |
| PyText.ReplaceAllTrailing | import_gnaf.py:41 | a sole trailing occurrence of such a pattern is replaced and nothing else changes |
| PyText.RemoveTrailing | import_gnaf.py:41 | deleting a sole trailing occurrence leaves exactly the text before it |
| PyText.RemoveTwoMatches | import_gnaf.py:41 | deleting two separated occurrences joins the three surrounding pieces |
| PyText.AbsentWithoutHead | import_gnaf.py:58 | a text without the pattern's first character does not contain the pattern |
| PyText.AbsentWhenHeadAbsent | import_gnaf.py:41 | a text has no occurrence when no early enough position holds the pattern's first character |
| TableNames.StripStateLabel | import_gnaf.py:41 | the anchored `^[^_]*_` substitution: without an underscore the name is unchanged; otherwise the result is the suffix after the first underscore |
| TableNames.StandardTableName | import_gnaf.py:41 | the table name is a suffix of the `_psv.psv`-free stem, strictly shorter iff the stem contains an underscore, and equal to the stem otherwise |
| TableNames.StripStateLabelOf | import_gnaf.py:41 | only the label before the first underscore is removed; later underscores are kept |
| TableNames.StandardTableNameOf | import_gnaf.py:41 | `<STATE>_<ENTITY>_psv.psv` loads into table `<ENTITY>` |
| TableNames.StandardTableNameIgnoresState | import_gnaf.py:41 | two files that differ only in their state label load into the same table |
| TableNames.AddressDetailTable | import_gnaf.py:41 | `NSW_ADDRESS_DETAIL_psv.psv` loads into `ADDRESS_DETAIL`, keeping the entity's own underscore |
| TableNames.StandardTableNameEarlySuffix | import_gnaf.py:41 | for a state label and a remainder both free of underscores, `<STATE>_psv.psv<REST>_psv.psv` loads into `<STATE><REST>`: the state label stays in the table name |
| TableNames.AuthorityTableName | import_gnaf.py:58 | the authority table name is never longer than the file name |
| TableNames.NoAuthorityPrefixBeforeSuffix | import_gnaf.py:58 | appending `_psv.psv` creates no `Authority_Code_` match unless the entity ends with `Authority_Code` |
| TableNames.AuthorityTableNameOf | import_gnaf.py:58 | `Authority_Code_<ENTITY>_psv.psv` loads into table `<ENTITY>` |
| TableNames.AuthorityTableNameBoundaryMatch | import_gnaf.py:58 | for a head with no `A` and no underscore, the entity `<HEAD>Authority_Code` loses the suffix's underscore instead (`Authority_Code_XAuthority_Code_psv.psv` gives `Xpsv.psv`) |
| CopyEscaping.NeedsEscaping | import_gnaf.py:45 | the one file selected for the repair is a `Standard/` file of table `ADDRESS_SITE` |
| CopyEscaping.AddressSiteTable | import_gnaf.py:41 | every state's `ADDRESS_SITE` file loads into table `ADDRESS_SITE` |
| CopyEscaping.OnlyNswAddressSite | import_gnaf.py:44-45 | the `ADDRESS_SITE` file of any state other than NSW is not repaired, yet loads into the same table |
| CopyEscaping.DoubleBackslashes | import_gnaf.py:46 | the output is as long as the input plus its number of backslashes; a text with no backslash is unchanged |
| CopyEscaping.DoublingIsGlobalSubstitution | import_gnaf.py:46 | the `s/\\/\\\\/g` substitution equals replacing every backslash by two, scanning left to right |
| CopyEscaping.DoubleBackslashesAppend | import_gnaf.py:46 | doubling acts character by character: it distributes over concatenation |
| CopyEscaping.DoubledIsPaired | import_gnaf.py:46 | after doubling, every backslash is the first of a pair |
| CopyEscaping.CollapseUndoesDoubling | import_gnaf.py:46 | reading pairs back as single backslashes restores the original contents |
| CopyEscaping.DoublingUndoesCollapse | import_gnaf.py:46 | conversely, a text whose backslashes are all paired is the doubling of what it reads as |
| CopyEscaping.CollapsePairs | import_gnaf.py:46 | reading back pairs never lengthens the text |
| CopyEscaping.CopyInput | import_gnaf.py:45-49 | a `Standard/` file other than `NSW_ADDRESS_SITE_psv.psv` is loaded as it is; that file is loaded doubled, all backslashes paired, and it reads back as the original contents |
| CopyEscaping.ReescapingIsVisible | import_gnaf.py:46-47 | doubling is not idempotent: doubling a second time, as a second pass over the same file does, no longer reads back as the original |
| ElapsedTime.Duration.WholeSeconds | import_gnaf.py:96 | the whole seconds of a normalised `timedelta` are its length in seconds rounded down |
| ElapsedTime.Difference | import_gnaf.py:96 | the difference of two clock readings is a normalised duration whose length is their difference; its whole seconds are that difference floored to seconds |
| ElapsedTime.NormalFormUnique | import_gnaf.py:96 | two normalised durations of the same length are equal |
| ElapsedTime.DivMod60 | import_gnaf.py:97 | `divmod(n, 60)` gives `q * 60 + r == n` with `0 <= r < 60`, for negative `n` too |
| ElapsedTime.ReportedSplit | import_gnaf.py:97 | the printed minutes and seconds recombine to the duration's seconds field, with fewer than 1440 minutes |
| ElapsedTime.ReportedSplitOfRun | import_gnaf.py:96-97 | the printed minutes and seconds recombine to the run's whole seconds modulo one day |
| ElapsedTime.ElapsedSplit | import_gnaf.py:97 | minutes and seconds recombine to the duration's whole seconds, days included |
| ElapsedTime.ElapsedSplitOfRun | import_gnaf.py:96-97 | for a run that does not go backwards, the minutes and seconds recombine to the run's whole seconds |
| ElapsedTime.ReportedIsElapsedIffUnderADay | import_gnaf.py:97 | the printed split equals the full split iff the run took less than a day |
| ElapsedTime.DayLongRunReportedShort | import_gnaf.py:97 | a run of one day and five seconds is reported as 0 minutes, 5 seconds instead of 1440 minutes, 5 seconds |

## Left out

- Database work is not modelled. This covers connecting, creating the database, running the schema and constraint scripts, creating indexes and `VACUUM ANALYZE`. All of it is calls into PostgreSQL.
- `cursor.copy_from` is not modelled. This covers the `for line in f` loop that consumes the header line before the copy, and how COPY parses rows and nulls. All of it happens inside the database driver. `CollapsePairs` models only COPY's reading of a doubled backslash.
- The `glob.glob` file discovery is not modelled. The naming functions take each base name as a parameter.
- Running `sed -i` through `os.system` and reopening the file are not modelled as file operations. `CopyInput` gives the contents COPY reads, as a value. The file is rewritten in place on disk, so running the importer again doubles it again. Only `ReescapingIsVisible` states that consequence.
- `datetime.now()` is not modelled; the two clock readings are parameters in microseconds. Progress and result printing is not modelled either.
- The text is modelled as Unicode characters. File encodings are left out.
- `DoubleBackslashes` doubles every backslash, including one already next to another, as `s/\\/\\\\/g` does.

## Findings

| source | as written | input that shows it | evidently intended | confidence | as-written member | corrected member |
|---|---|---|---|---|---|---|
| import_gnaf.py:97 | `divmod(time_taken.seconds, 60)` splits only the seconds field of the `timedelta`, which excludes whole days | an import that takes 1 day and 5 seconds is reported as 0 minutes, 5 seconds | split the whole duration, days included: 1440 minutes, 5 seconds | medium, not executed | ElapsedTime.ReportedSplit, ElapsedTime.DayLongRunReportedShort | ElapsedTime.ElapsedSplit, ElapsedTime.ElapsedSplitOfRun |
