# FASTA record reader and lookup, modelled in Dafny

`src/main.rs` is a small command-line tool. It reads a FASTA file into a map
from header line to sequence and looks up a record by a search term. It can
then save that record to `<name>.fasta`. This project models the parts of the
tool that are not I/O:

- **Text** (`text.dfy`): the Rust string operations the tool relies on:
  - `char::is_whitespace`, written out as the 25 Unicode White_Space
    characters;
  - `str::trim`;
  - `str::contains`;
  - `str::lines`;
  - the text `writeln!` produces for a list of lines.
- **Fasta** (`fasta.dfy`): the two line parsers.
  - `read_multiple_fasta` and `read_multiple_fasta_deco` flush the pending
    record at each header.
  - `read_single_fasta` and `read_single_fasta_deco` insert once, after the
    loop.
  - Both parsers are methods with the source's loop and its three mutable
    buffers: `fasta`, `curid` and `curseq`.
  - Each is proved equal to a fold, `After`, which gives the loop state after
    the first n lines. The properties are proved about that fold.
- **Lookup** (`lookup.dfy`):
  - `get_id` is a method with the source's loop over the keys.
  - `get_info` is a function returning either the record or the panic the
    source raises.
  - A `HashMap` yields its keys in an unspecified order, so the order is a
    parameter: any sequence that lists every key exactly once.
- **Output** (`output.dfy`): `write_seq_file`, as a method with the source's
  loop. It covers the file name, the skip when the file already exists and
  the written text. Lemmas read that text back with both parsers.
- **Scenarios** (`scenarios.dfy`): small concrete inputs for the parsers and
  the lookup.

Three behaviours of the code are easy to miss:

- **Last record dropped.** The multi-record parser has no flush after its
  loop, so the last record is never stored (`Fasta.MultipleSize`,
  `Output.WriteThenReadMultiple`).
- **Single-record key.** The single-record parser keys its one entry by the
  *last* header seen, and the value holds the body lines of every record
  (`Fasta.SingleEntry`).
- **Failed lookup.** `get_info` panics with "Could not find id" whenever the
  found id is not a key (`Lookup.GetInfo`). A term that matches nothing
  gives the found id "", so it panics unless "" is a key, as it is after the
  single-record parser reads a file without a header
  (`Scenarios.LookupEmptyKey`).

## Model

| member | source | states |
|---|---|---|
| Fasta.ReadMultipleFasta | src/main.rs:175-201 | the map the multi-record loop builds over the lines equals the fold `ReadMultiple`, a flush at each header whose pending id is non-empty and no flush after the loop |
| Fasta.ReadSingleFasta | src/main.rs:103-122 | the map the single-record loop builds equals `ReadSingle`: the loop never inserts, and one insert of (`curid`, `curseq`) follows it |
| Fasta.TrimmedHeader | src/main.rs:187-193 | a trimmed header line still starts with '>' (so it is never empty) and is its own trim |
| Fasta.CurIdEmpty | src/main.rs:183-193 | in either parser, `curid` is empty after n lines exactly when none of them was a header |
| Fasta.CurIdIsLast | src/main.rs:187-193 | in either parser, `curid` is the trimmed last header read so far |
| Fasta.BodyRun | src/main.rs:194-195 | header-free lines leave the map and `curid` alone and only append their trimmed text to `curseq` |
| Fasta.NoHeaderYet | src/main.rs:183-195 | before the first header the map is empty, `curid` is "" and `curseq` holds all trimmed lines so far |
| Fasta.Flush | src/main.rs:187-193 | a header read while a record is pending stores (that record's trimmed header, `curseq`), clears `curseq` and makes the new trimmed header current |
| Fasta.CurSeqSince | src/main.rs:188-195 | while header h is pending, `curseq` is the trimmed body since h, with the body lines before h in front when h is the first header |
| Fasta.KeyWitness | src/main.rs:187-193 | every stored key is the trim of a header line that a later header line follows |
| Fasta.KeyFromHeaders | src/main.rs:187-193 | the trim of every header line that a later header line follows is stored |
| Fasta.MultipleKeys | src/main.rs:185-196 | the keys are exactly the trimmed headers followed by another header; each starts with '>' and equals its own trim |
| Fasta.KeepsValue | src/main.rs:188-190 | a stored value survives later lines as long as its key is not flushed again (a repeated key is overwritten by the later flush) |
| Fasta.RecordBetween | src/main.rs:185-196 | for headers i and j with no header between them, and no later flush of the same text, the map sends the trimmed header i to the trimmed lines between them, with any body lines before the first header in front |
| Fasta.SizeAfter | src/main.rs:185-196 | stored records plus the pending one never outnumber the headers read |
| Fasta.MultipleSize | src/main.rs:185-200 | the map has at most (number of headers - 1) entries, and input with at most one header, including empty input, gives the empty map |
| Fasta.IgnoresTrailingBody | src/main.rs:185-200 | appending header-free lines never changes the map: the pending record is never stored |
| Fasta.SamePrefix | src/main.rs:185-196 | the state after n lines depends only on those n lines |
| Fasta.BlankLineAfter | src/main.rs:187-195 | inserting a whitespace-only line leaves the loop state of either parser unchanged |
| Fasta.BlankLine | src/main.rs:112-196 | inserting a whitespace-only line anywhere changes neither parser's result |
| Fasta.SingleBody | src/main.rs:112-119 | the single-record loop never inserts, and its `curseq` is every non-header line trimmed and joined |
| Fasta.SingleEntry | src/main.rs:110-121 | the single-record map has exactly one entry: the trimmed last header (or "" when there is none) mapped to all trimmed body lines joined; empty input gives {"": ""} |
| Lookup.GetId | src/main.rs:92-101 | the loop's result is the concatenation, in key order, of the keys that contain the term |
| Lookup.MatchingSpec | src/main.rs:95-98 | a key is picked exactly when it is listed and contains the term, and no picked key repeats |
| Lookup.NotFoundIff | src/main.rs:92-100 | when no key is empty, `get_id` returns "" if and only if no key contains the term |
| Lookup.NoMatch | src/main.rs:95-98 | when no key contains the term, nothing is picked |
| Lookup.UniqueMatch | src/main.rs:92-100 | when exactly one key contains the term, `get_id` returns that key |
| Lookup.EmptyTermMatchesAll | src/main.rs:96 | the empty term is contained in every key, so every key is picked and concatenated |
| Lookup.ConcatLength | src/main.rs:97 | concatenating distinct keys gives the total length of their set |
| Lookup.FoundIdLength | src/main.rs:92-100 | the length of `get_id`'s result is the sum of the lengths of the matching keys, whatever the key order |
| Lookup.GetInfo | src/main.rs:81-90 | the record is returned exactly when the found id is a key, as (found id, its value), so the key check holds; otherwise the result is a panic "Could not find id", which happens whenever no key matches and "" is not a key |
| Lookup.NoMatchNoKey | src/main.rs:81-83 | with no matching key the found id is "" |
| Lookup.UniqueLookup | src/main.rs:81-89 | a term contained in exactly one key retrieves (that key, its sequence) |
| Output.WriteSeqFile | src/main.rs:63-78 | the file name is the name plus ".fasta"; an existing file is left alone; otherwise the content is the id line followed by each line of the sequence, each ended by "\n"; an empty sequence gives just the id line |
| Output.WrittenLines | src/main.rs:74-77 | splitting the written text into lines gives back the id and every sequence line verbatim, with no re-wrapping |
| Output.WriteThenReadSingle | src/main.rs:63-77 | the single-record parser reads a written file back as the trimmed id mapped to the trimmed sequence lines joined, both for a header id and for the empty id a header-less file yields |
| Output.WriteThenReadSingleLine | src/main.rs:63-77 | a one-line sequence without surrounding blanks, under a trimmed id, reads back as exactly {id: sequence} |
| Output.WriteThenReadMultiple | src/main.rs:63-77 | the multi-record parser reads a written file, which holds one record, back as the empty map |
| Text.TrimOffset | src/main.rs:115 | what `trim` keeps is a contiguous piece of the line with only whitespace before and after it |
| Text.TrimEnds | src/main.rs:117 | `trim` gives "" exactly for an all-whitespace line; otherwise the result starts and ends with non-whitespace |
| Text.TrimKeepsFirst | src/main.rs:115 | a line that does not start with whitespace keeps its first character under `trim` |
| Text.TrimIdempotent | src/main.rs:115 | trimming twice is trimming once |
| Text.ContainsEmpty | src/main.rs:96 | every string contains the empty pattern |
| Text.ContainsSelf | src/main.rs:96 | every string contains itself |
| Lookup.ExactKeyLookup | src/main.rs:81-99 | searching for a whole key that no other key contains retrieves that key's record |
| Scenarios.LookupEmptyKey | src/main.rs:81-101 | with "" as a key, a term that matches nothing retrieves the record under "" instead of panicking |
| Text.NewlineFrom | src/main.rs:75 | the position found is the first '\n' at or after the start, or the end of the text |
| Text.LinesChars | src/main.rs:75 | the lines of a text hold only its characters and never a '\n' |
| Text.LinesCons | src/main.rs:75 | a line ended by "\n" is split off first |
| Text.TerminatedCons | src/main.rs:74-76 | writing a first line and then the rest gives that line, "\n" and the rest's text |
| Text.LinesOfTerminated | src/main.rs:74-76 | lines written one per `writeln!` split back into the same lines, unless a line holds '\n' or ends with '\r' |
| Scenarios.FirstRecord | src/main.rs:185-196 | on the sample input, both parsers hold ">a" and "ACGT" at the second header |
| Scenarios.TwoRecordsMultiple | src/main.rs:185-200 | the sample's first record is stored with the trailing blank trimmed, and its last record is dropped |
| Scenarios.TwoRecordsSingle | src/main.rs:110-121 | the sample reads as one record under the last header, holding every body line |
| Scenarios.LookupFound | src/main.rs:81-101 | a term contained in one key retrieves that record |
| Scenarios.LookupMissing | src/main.rs:81-101 | a term contained in no key panics with "Could not find id" |
| Scenarios.LookupInTwoRecords | src/main.rs:81-101 | a term contained in two keys yields their concatenation, which is not a key, so the lookup panics |

## Left out

- `main` (src/main.rs:10-61) is left out: argument parsing, option dispatch, stdin prompts and console output. Two quirks are not modelled:
  - only `-s` fills the id and sequence to be written;
  - `read_line` keeps the trailing newline, so the answer equals "Y" only when standard input ends right after a "y" or "Y" with no newline; otherwise the file is not written.
- Gzip decompression (`MultiGzDecoder`) is a foreign library and is left out. The `_deco` readers run the same loops as the plain ones, so `ReadMultipleFasta` and `ReadSingleFasta` stand for both.
- File I/O is left out:
  - opening files and `BufReader::lines` splitting: the parsers take the sequence of lines;
  - the `expect` panics on unreadable files or lines that are not UTF-8;
  - `Path::exists`: an input of `WriteSeqFile`;
  - `File::create` and the appending writes: `WriteSeqFile` returns the text they would leave in a fresh file.
- The `Instant` timing and every `println!` are left out: they are clock and console output.
- The concrete `HashMap` iteration order is unspecified and is a parameter of `GetId` and `GetInfo`. The length of the result is proved the same for every order; its text can differ between orders when more than one key matches.
- The unused `csv::Writer` and `read_dir` imports are not part of this model.
