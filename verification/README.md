# Vendor extraction from accounting exports

A Dafny model of `cmd/vendors/main.go`, a command-line tool that walks a
directory of accounting-export CSV files and prints the sorted, duplicate-free,
lower-case list of vendors they mention.

For each path the walk visits, the tool:

- ignores the path unless it ends in `.csv`;
- otherwise opens it and reads CSV records;
- scans record 0 (the header) left to right. Every cell that reads exactly
  `Description` or `Vendor Name` becomes the vendor column, so the last such
  cell wins. A header with neither label ends the file with no vendors;
- maps every later record to one vendor. For a `Vendor Name` column this is
  the lowercased cell. For a `Description` column it is the lowercased cell
  cut at its first comma.

`main` gathers the vendors of all files in a set, sorts them and prints them.
Any walk, open or read error aborts the whole run before anything is printed.

Files and modules:

- `results.dfy` (`Results`): `Option` (Go's nil pointer) and `Result` (Go's `(value, error)` pairs).
- `text.dfy` (`Text`): the parts of Go's `strings` package the tool uses.
  These are `HasSuffix`, ASCII `ToLower` and `Split`, with `IndexOf` (the search `Split` uses) and `Join` (the inverse of `Split`).
- `ordering.dfy` (`Lex`): Go's string order, strictly sorted sequences, and `SortUnique`.
  `SortUnique` stands for the map-then-`sort.Strings` step.
- `vendors.dfy` (`Vendors`, `VendorFacts`): header scan, `ParseVendor`, per-file extraction,
  the walk callback and the whole run, plus lemmas relating them.
- `scenarios.dfy` (`Scenarios`): concrete exports worked through the model.

Inputs the program gets from the outside are parameters of the model:

- A file's contents are a `FileContents` value. `Unreadable` means `os.Open` failed.
  `Opened(records, end)` holds the records the CSV reader returns, followed by end of file or a reader error.
- The walk is a sequence of `Entry` values in visiting order. `WalkError` is an error the walk passes to its callback.

Go's `sort.Strings` compares UTF-8 bytes. For valid UTF-8, comparing Dafny's Unicode scalar values one by one gives the same order.

Three behaviours of the code are easy to misread; the model follows the code:

- A header with no recognised cell returns at once. A reader error further down that file is therefore never
  reported (`Scenarios.UnrecognisedHeader`).
- A data row too short to reach the vendor column makes the code index out of range, a run-time panic. The model
  turns it into the failure `RowTooShort(row, index)`, and like a panic it aborts the run.
  `VendorFacts.UniformRowsNeverTooShort` shows it cannot happen when every record has as many fields as the header.
  That is the CSV reader's default rule: with it, a short row comes back as a reader error instead.
- A CSV read error aborts the whole run, not just the one file.

## Model

| member | source | states |
|---|---|---|
| Text.HasSuffixMeansEndsWith | cmd/vendors/main.go:51 | the `.csv` test holds of a path exactly when the path is some string followed by the suffix |
| Text.ToLower | cmd/vendors/main.go:111-113 | lowercasing keeps the length, maps each character on its own, and leaves no upper-case ASCII letter |
| Text.LowerIsFixpoint | cmd/vendors/main.go:111-113 | a string with no upper-case letter is unchanged by lowercasing |
| Text.ToLowerIdempotent | cmd/vendors/main.go:111-113 | lowercasing twice equals lowercasing once |
| Text.ToLowerKeepsSeparator | cmd/vendors/main.go:111 | lowercasing keeps every comma at its position and adds none, so the Description cut falls where the raw cell's first comma is |
| Text.IndexOf | cmd/vendors/main.go:111 | the result is -1 exactly when the character is absent; otherwise it is a position holding the character with no earlier occurrence |
| Text.Split | cmd/vendors/main.go:111 | splitting gives at least one piece, and no piece holds the separator |
| Text.JoinSplit | cmd/vendors/main.go:111 | joining the pieces of a split with the separator rebuilds the input |
| Text.SplitJoin | cmd/vendors/main.go:111 | the other round trip: pieces free of the separator, joined then split, come back unchanged |
| Text.FirstPieceIsPrefix | cmd/vendors/main.go:111 | piece 0 of a split is a comma-free prefix of the input. It is all of the input when there is no separator; otherwise the separator follows it |
| Lex.LessIrreflexive | cmd/vendors/main.go:44 | no string sorts before itself |
| Lex.LessTransitive | cmd/vendors/main.go:44 | the string order is transitive |
| Lex.LessTotal | cmd/vendors/main.go:44 | of two different strings, one sorts before the other |
| Lex.LessAsymmetric | cmd/vendors/main.go:44 | two strings never sort before each other both ways |
| Lex.SortedHasNoDuplicates | cmd/vendors/main.go:40-44 | a strictly sorted sequence holds each string once |
| Lex.Insert | cmd/vendors/main.go:34 | adding a vendor to a sorted set keeps it strictly sorted; its members become the old members plus the new vendor |
| Lex.SortUnique | cmd/vendors/main.go:40-44 | collecting strings into a set and sorting gives a strictly sorted sequence with exactly the input's strings |
| Lex.SortedListingUnique | cmd/vendors/main.go:40-44 | two strictly sorted sequences with the same members are equal, so the sorted output of a set is unique |
| Vendors.LabelRoundTrip | cmd/vendors/main.go:97-100 | the two header constants are different, and reading a kind's label back gives that kind |
| Vendors.KindOf | cmd/vendors/main.go:72-83 | a header cell names a kind exactly when it is the literal `Description` or `Vendor Name`, and the kind's label is that cell |
| Vendors.ScanHeader | cmd/vendors/main.go:71-84 | each step of the left-to-right scan keeps this invariant: the field found so far is the last labelled column before the current one, or no earlier column is labelled |
| Vendors.DetectField | cmd/vendors/main.go:70-87 | no field is found exactly when no header cell is a label. A found field's column holds its kind's label, and no later column holds a label, so the last match wins |
| Vendors.LastLabelWins | cmd/vendors/main.go:71-84 | the converse: a column holding a label with no label after it is the field the scan returns |
| Vendors.ParseVendor | cmd/vendors/main.go:107-116 | needs the column to lie inside the record. A Vendor Name vendor is the lowercased cell. A Description vendor is a comma-free prefix of the lowercased cell: all of it when there is no comma, otherwise a comma follows it. Either way it is lower case |
| Vendors.ParseRows | cmd/vendors/main.go:88-90 | rows succeed exactly when every row reaches the vendor column. Success gives one vendor per row, in row order. Failure names the first short row by its record number |
| Vendors.ReadVendors | cmd/vendors/main.go:60-92 | an empty file yields nothing, or fails with `ReadFailed` on a reader error. `RowTooShort` arises only after a header with a label. A header without labels yields nothing. Otherwise success needs a clean end and no short row, and gives exactly one lower-case vendor per data row, in row order. A short row fails as `RowTooShort`, naming the first short row, even when a reader error would follow. If every row is long enough, a reader error fails as `ReadFailed` |
| Vendors.CheckFileForVendors | cmd/vendors/main.go:50-58 | a path without the `.csv` suffix yields nothing whatever its contents. A `.csv` path that cannot be opened fails. Otherwise the file's records are read |
| Vendors.VisitEntry | cmd/vendors/main.go:25-35 | a walk error gives `WalkFailed`. A path without `.csv` yields nothing. A `.csv` path that cannot be opened gives `OpenFailed`; an opened one yields exactly what reading its records yields. So an entry fails exactly on a walk error or when its `.csv` file cannot be opened or read, and every vendor it yields is lower case |
| Vendors.WalkEntries | cmd/vendors/main.go:24-39 | success gives every entry's vendor list in walk order. Failure is the error of an entry before which every entry succeeded |
| Vendors.Concat | cmd/vendors/main.go:33-35 | a vendor is among the gathered ones exactly when some file yielded it |
| Vendors.Run | cmd/vendors/main.go:23-47 | the run succeeds exactly when every entry does. Its output is strictly sorted and lower case, and holds exactly the vendors some file yielded. On failure it returns the error of the first failing entry in walk order |
| VendorFacts.NonCsvContentIgnored | cmd/vendors/main.go:51-53 | for a path without `.csv`, any two contents give the same empty result |
| VendorFacts.UniformRowsNeverTooShort | cmd/vendors/main.go:61-69 | when every record has the header's field count, reading fails only with a reader error, never a short row |
| VendorFacts.MapOrderIrrelevant | cmd/vendors/main.go:40-44 | sorting the vendor set's keys in any enumeration order gives the run's output |
| VendorFacts.VendorIsNormalised | cmd/vendors/main.go:111-113 | lowercasing a vendor again changes nothing |
| VendorFacts.DescriptionCutsAtFirstComma | cmd/vendors/main.go:110-111 | a Description vendor equals the lowercased cell up to the index of its first comma, or the whole cell when there is no comma |
| VendorFacts.CaseVariantsCollapse | cmd/vendors/main.go:111-113 | two cells equal up to ASCII case give the same vendor |
| Scenarios.VendorNameColumn | cmd/vendors/main.go:112-113 | a `Vendor Name` column in the middle of the header yields `acme` for both `ACME` and `Acme` |
| Scenarios.DescriptionColumn | cmd/vendors/main.go:110-111 | a `Description` column with `Foo Bar, misc` and `foo baz, other` yields `foo bar` and `foo baz` |
| Scenarios.LaterHeaderWins | cmd/vendors/main.go:71-84 | with `Vendor Name` in column 0 and `Description` in column 2, column 2 is chosen as Description |
| Scenarios.UnrecognisedHeader | cmd/vendors/main.go:85-87 | a header without labels yields nothing, even when the reader would fail later |
| Scenarios.TwoFilesMerged | cmd/vendors/main.go:23-47 | two files yielding `acme, zeta` and `acme, beta`, plus a non-CSV path, print `acme, beta, zeta` |

## Left out

- Directory traversal (`filepath.Walk`) and its visiting order: the visited entries are a parameter of `Run`.
  Walk also visits directories. A directory named `*.csv` is whatever `FileContents` its entry carries.
- Opening and closing files (`os.Open`, `defer f.Close()`): an open failure is the `Unreadable` contents; closing has no observable effect here.
- The `-directory` flag and its nil check, which can never trigger: command-line plumbing.
- `log.Fatal` and `fmt.Println`: `Run` returns the failure, or the list that would be printed one per line.
- CSV parsing and quoting by `encoding/csv`: records are given, and any reader error is the opaque `ReadError`.
  The reader's field-count rule appears only as the hypothesis of `VendorFacts.UniformRowsNeverTooShort`.
- Cells and paths are taken to be valid UTF-8, because Dafny strings are sequences of Unicode scalar values.
  Go strings are bytes: `strings.ToLower` turns each invalid byte of a non-ASCII cell into U+FFFD, and `sort.Strings` orders raw bytes. Neither can be expressed here.
- Text.ToLower: maps only ASCII `A`-`Z`. Go's `strings.ToLower` applies full Unicode case mapping.
- Vendors.ParseVendor: the source's final `return ""` is missing. It runs only for a field type other than the two
  constants, which the two-variant `VendorKind` cannot hold.
- Vendors.ParseRows: the out-of-range panic is modelled as a returned failure, without the goroutine stack trace a panic prints.
- Go map iteration order: only the sorted result is observable (`VendorFacts.MapOrderIrrelevant`).
