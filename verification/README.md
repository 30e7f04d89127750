# notify — a Dafny model of the command-line core

`notify` is a small Go command that shows a desktop toast. `main.go` does three
things, and this project models each of them as pure Dafny functions with proved
contracts:

1. **It scans and validates the arguments.** This covers the argument loop of
   `main`, `parseBool` and the checks that follow the loop (module `Parser`, in
   `parser.dfy`).
   - `ScanFrom` is the loop, written branch for branch.
   - A second, declarative reading describes the same behaviour. The scan visits
     a fixed sequence of positions (`Heads`). Each visited token contributes a
     `Directive` (help, or assignments to some fields). Every field ends with
     the last value assigned to it (`Options.LastSome`).
   - `ScanFromMatchesReference` proves the loop equal to that reading. The
     guarantees about help flags, the message, the timeout and ignored tokens
     are read off it.
   - `Validate` and `Parse` give the outcome as
     `Help | MissingMessage | InvalidType(t) | Ok(notification)` instead of
     exiting the process.
2. **It draws the type's icon.** This covers the palette `iconData` and the
   pixel loop of `createIcon` (module `Icon`, in `icon.dfy`). The loop is a
   method with nested loop invariants that produces a 64×64 RGBA grid: a disc of
   radius 28 in the type's colour on a transparent background.
3. **It configures the toast.** This covers the record that `displayNotification`
   fills in, and how a run ends (module `Dispatch`, in `dispatch.dfy`). Whether
   the icon file could be written and whether the toast service accepted the
   toast are parameters.

Three other modules support these:
- `options.dfy` (module `Options`) holds optional values and `LastSome`, the
  "last value assigned wins" reading of a sequence of optional assignments.
- `text.dfy` (module `Text`) models the parts of Go's `strings` and `strconv`
  that the code calls.
- `scenarios.dfy` traces concrete command lines through the loop.

The loop assigns `message` on every unconsumed token without a leading dash, so
the last one wins. An empty token `""` counts as
positional, so a trailing `""` clears the message (`Scenarios.EmptyTokenClearsMessage`).

## Model

| member | source | states |
|---|---|---|
| Text.TrimPrefix | main.go:58-59 | With the prefix present, prefix + result is the input; without it the input comes back unchanged |
| Text.ToLower | main.go:171 | Same length as the input; each character is lowered on its own (A–Z to a–z, everything else kept) |
| Text.Title | main.go:151 | Same length as the input; a character is upper-cased exactly when it starts a word (first position, or after a separator); nothing else changes |
| Text.TitleOfWord | main.go:151 | For a single lower-case word, Title upper-cases only the first letter |
| Text.Atoi | main.go:87 | Succeeds exactly when the text is an optional sign followed by one or more decimal digits and its value fits a 64-bit int; the result is that value |
| Parser.ScanFromMatchesReference | main.go:49-125 | From any index and any field values, the loop gives the declarative reading: help if a visited token is a help flag, otherwise every field takes the last value a visited token assigns it |
| Parser.ScanMatchesReference | main.go:39-125 | The whole scan, from the defaults (type info, timeout 5, auto-close on, no title or message), equals the declarative reading |
| Parser.StepIsDirective | main.go:53-124 | One iteration on a non-help token applies that token's assignments and moves on by 1, or by 2 for a value flag with a successor |
| Parser.PositionalDirective | main.go:118-122 | A token without a leading dash sets only the message, and the index moves on by one |
| Parser.TypeAssignDirective | main.go:58-62 | `--type=v` sets only the type, to v, and the index moves on by one |
| Parser.TitleAssignDirective | main.go:72-76 | `--title=v` sets only the custom title, to v, and the index moves on by one |
| Parser.TimeoutAssignDirective | main.go:86-92 | `--timeout=v` sets only the timeout, to Atoi(v) when that succeeds, and the index moves on by one |
| Parser.AutoCloseAssignDirective | main.go:104-108 | `--autoclose=v` sets only auto-close, to parseBool(v), and the index moves on by one |
| Parser.FlagDirective | main.go:64-124 | A dash token without `=` sets a field only when it names that field's flag and a token follows; the value is the next token |
| Parser.HeadsIncrease | main.go:49-125 | The visited positions strictly increase, so no token is read twice |
| Parser.HeadsStep | main.go:49-125 | Consecutive visited positions differ by the stride of the first one, which is 1 or 2 |
| Parser.ValueIsNotVisited | main.go:64-116 | A value flag with a successor consumes it: that position is never visited, and the next visited position is two further on |
| Parser.HelpIffVisited | main.go:53-56 | The scan ends in help exactly when some visited position holds `--help`, `-help` or `-h` |
| Parser.HelpIgnoresLaterTokens | main.go:53-56 | If a command line asks for help, appending any tokens keeps the help request |
| Parser.MessageIsLastPositional | main.go:118-122 | The message never starts with a dash. It is empty when no visited token is positional, and otherwise equals the last visited positional token |
| Parser.TimeoutAt | main.go:86-101 | A timeout a token sets always fits a 64-bit int |
| Parser.TimeoutIsLastParsed | main.go:86-101 | The timeout fits a 64-bit int. It is 5 when no visited token sets one, and otherwise equals the value of the last visited timeout token whose text Atoi accepts |
| Parser.ParseBoolIsTrueInAnyCase | main.go:170-172 | parseBool is true exactly for the four-letter strings spelling "true" in any mix of cases |
| Parser.IgnoredTokenIsInert | main.go:110-124 | An unknown dash token, or a value flag in last position, requests nothing, assigns nothing and moves the index on by one |
| Parser.IgnoredTokenChangesNothing | main.go:124 | Deleting such a token's directive leaves the result of the whole scan as it was |
| Parser.ValidTypesAreWords | main.go:134 | Every valid type is a non-empty lower-case word |
| Parser.Validate | main.go:127-152 | An empty message gives MissingMessage, whatever the type. Otherwise a type outside the four gives InvalidType with that type. Otherwise Ok copies the fields; the title is the custom title when non-empty, else the type with its first letter upper-cased |
| Parser.Parse | main.go:38-161 | Help exactly when a visited token is a help flag. Ok implies a valid type, a non-empty message without a leading dash, a non-empty title and a timeout that fits a 64-bit int |
| Icon.StyleFor | main.go:200-203 | A known type gets its own palette entry; any other key gets the info entry; the colour is always opaque |
| Icon.PaletteColours | main.go:28-36 | The colours of success, error and warning. Every other key falls back to info's entry (52, 152, 219, 255) |
| Icon.EveryValidTypeHasAStyle | main.go:28-36 | Every valid type has a palette entry whose colour no other entry shares |
| Icon.Rasterize | main.go:205-228 | 64 rows of 64 pixels; pixel (x, y) has the type's colour exactly when (x−32)²+(y−32)² ≤ 784, and is (0,0,0,0) otherwise |
| Icon.DiscWithinMargin | main.go:210-222 | Every opaque pixel lies within 4 ≤ x ≤ 60 and 4 ≤ y ≤ 60 |
| Icon.DiscTouchesMargin | main.go:210-222 | The bound is exact: the disc reaches columns and rows 4 and 60, and no pixel beyond them |
| Icon.DiscRowsAreConvex | main.go:213-228 | In every row the opaque pixels form one unbroken run |
| Icon.DiscSymmetries | main.go:216-220 | The disc is symmetric under swapping the axes and under mirroring about the centre |
| Icon.IconFileNameInjective | main.go:232 | Two types share an icon file name exactly when they are the same type |
| Dispatch.BuildToast | main.go:269-293 | App id "Notify CLI", protocol activation with "dismiss", and title, message and icon copied. Sound is Default exactly for success, error and warning. Duration is Long exactly when auto-close is off |
| Dispatch.InfoIsTheOnlySilentType | main.go:284-289 | Among the valid types only info is silent |
| Dispatch.TimeoutIsIgnored | main.go:269-293 | Changing the timeout changes nothing in the toast |
| Dispatch.Invoke | main.go:260-310 | Exit code 0 exactly for help or an accepted toast, else 1. A toast is attempted exactly for an Ok outcome, and it is the toast BuildToast makes from the validated notification with the written icon path, or "" when writing failed. The icon file is removed exactly after a successful push with a non-empty path |
| Scenarios.HelpAsTitleValue | main.go:78-83 | `--title -h hi` gives Ok with title "-h" and message "hi": the consumed `-h` is not a help request |
| Scenarios.EmptyTokenClearsMessage | main.go:118-131 | `hi ""` gives MissingMessage |
| Scenarios.EmptyTypeIsInvalid | main.go:58-146 | `--type= hi` gives InvalidType("") |
| Scenarios.LateHelp | main.go:53-56 | `x -h` gives Help |

## Left out

- `notification.Push` and the toast service behind it are not modelled. Whether the push fails is a parameter of `Dispatch.Invoke`.
- The 500 ms sleep, `os.Remove`, `os.TempDir` and `filepath.Join` are side effects. `Invoke` records only which path would be removed.
- PNG encoding and file creation in `createIcon` are an external codec and file I/O. Only the pixel grid and the file name are modelled. Whether writing succeeded is a parameter of `Invoke`.
- `embeddedIcons` and `getEmbeddedIconPath` are never called.
- `showHelp` and the `fmt` messages produce output only. Help and the two usage errors are constructors of `Parser.Outcome`.
- The palette's symbols are kept in `Icon.Style` but never drawn, as in the source.
- Text.ToLower: lowers only the ASCII letters A–Z, because the tokens it compares against (`true`) are ASCII; Go's `strings.ToLower` also lowers non-ASCII letters.
- Text.Title: upper-cases only a–z at word starts, while Go also title-cases non-ASCII letters. The word-boundary test itself is modelled as Go has it for ASCII and for Unicode white space. The types it is applied to are ASCII words after validation.
- Text.Atoi: the model assumes a 64-bit `int`; on a 32-bit target Go's range check would reject more values. An out-of-range value is a parse failure, as Go's range error is.
