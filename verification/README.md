# Verified model of a small teaching kernel

This project models the algorithmic code of a JOS lab kernel, of its boot loader
and of the stream readers of its test library, and proves what that code is for. Each
loop is a Dafny loop on the same variables; each object that the code updates in
place is a class. A method is proved equal to a specification function (or, where
it changes an object, ties the new state to a function of the old one), and the
lemmas beside it prove what that function means, over every input and every run.

| file | models |
|---|---|
| StabSearch.dfy | `stab_binsearch`: a binary search among interleaved entries that changes its own key |
| Kdebug.dfy | `debuginfo_eip`: two nested searches and two walks |
| CString.dfy | characters and C strings |
| Printnum.dfy | `printnum`, `sprintputch`, `strnlen`, the string field of `vprintfmt` |
| Format.dfy | the meaning of a format: parsing, rendering, composition |
| WrittenFormat.dfy | directives with a width and a precision written as decimal digits |
| Vprintfmt.dfy | the loops of `vprintfmt`, and `vsnprintf` |
| Strtol.dfy | `strtol`, and its laws with the printers |
| MinusFlag.dfy | the '-' flag of numbers and strings |
| Conversions.dfy | what each directive prints, in literal text |
| Numerals.dfy | what `strtol` reads, in literal text |
| RoundTrip.dfy | `vsnprintf` followed by `strtol` on the same array |
| Memory.dfy | `memmove`, `memset` |
| Cga.dfy | the screen as a window of an unbounded terminal |
| Readline.dfy | the line editor on that screen |
| ConsoleInput.dfy | the console ring buffer |
| Keymap.dfy, Keyboard.dfy | the scan-code machine and its tables |
| Boot.dfy | the boot loader |
| Monitor.dfy | the command tokenizer and dispatcher, `strcmp` |
| Shell.dfy | one round of the monitor: a typed line is run as a command |
| Framing.dfy, Gradelib.dfy | stream framing, for packets and for lines |

`dafny verify dfyconfig.toml` checks everything.

Modelling choices. C integers are unbounded in the model; where their width
matters it is written out (`addr++`, `int` and `long long` arguments, `char`
stores, colour cells) or excluded by a precondition (a `long` that overflows in
`strtol`, an address that wraps in `readseg`, a width that underflows in `printnum`). A character is an integer, because
`char` is signed here: a `%s` argument can put negative values, and `%c` any
`int`. Behaviour that C leaves undefined in a format is the value `Undefined` of
its meaning, and `vprintfmt` requires a defined one. Device input is a sequence
of bytes, and regular expressions on lines are a function.

## Where the code and its comments differ

- kern/kdebug.c:32-34 promises `left > right` when no entry contains the address.
  That is so exactly when the region has no entry of the type
  (`MissIsReportedIff`); when all entries lie above the address, the region before
  the first one is returned, and its left end can be one below the region.
  `MissIsNotReported` shows such a table.
- kern/kdebug.c:77-80: the bumped key can hit the entry for the next address.
  `SearchIsScanIff` says exactly when the search then differs from the linear scan,
  and `AdjacentEntriesMislead` shows a table with two entries on which it does. At
  the largest address the key wraps to 0 and the entry for it is not found
  (`WrapMisleads`).
- kern/kdebug.c:142-150: when the first table entry is a main-file entry above the
  address, and only then, the first search returns -1 and the second one starts
  before the table (status `OutOfTable`; `LookupIsLinear`, and
  `FirstFileAboveLeavesTable` for a table).
- kern/kdebug.c:152-161: when the bounds of the function are not empty, the entry
  at the left one is a function's exactly when the file has a function entry at or
  below the address (`FunctionIsFoundIff`); when all its function entries lie above
  the address, the file's own entry is taken for the function
  (`FileIsTakenForFunction` shows a table).
- kern/kdebug.c:197-203 sets out to count the arguments, but its walk stops before
  the last entry of the function: it misses that entry exactly when all entries
  after the function's own are parameters (`LastParameterIsMissedIff`;
  `OnlyParameterIsMissed` shows a table).
- lib/printfmt.c:107 calls '-' the flag to pad on the right. Only `%s` does that;
  `MinusPadsRightIff` says that a number is padded on the right only when the width
  asks for no padding. Otherwise '-' characters come before its digits: `%-5d` of 42
  is "---42" (`MinusPadsLeft`), which cannot be parsed back (`PrintThenParse` says
  exactly when a number can).
- lib/printfmt.c:111-147: a '0' at the start of a precision is read as the zero
  flag, so that `%.0s` prints the whole string (`ZeroPrecisionPrintsAll`), and a '.'
  without digits asks for nothing. `ReadAsWrittenIff` says exactly when padding and
  precision are those written.
- boot/main.c:85-87 says that reading more than asked does not matter because
  loading is in increasing order. `IncreasingOrderDoesNotHelp` shows an image with
  two segments in increasing order, the second of which destroys a byte of the
  first; `ByteIsRightIff` says exactly which bytes are right in the end.
- lib/readline.c:22-26 takes DELETE for an erasing key, but on the empty line it falls
  through to the next test and is inserted like a character (`EmptyLineErases`). On
  every other line it erases, as a backspace does (`KeysAreErased`).
- kern/console.c:296 gives Home with CTL the scan code 0x97, while the two other
  tables have it at 0xc7, so that Home types nothing with CTL (`PrefixedKeys`).
- kern/monitor.c:90 reports 16 as the maximum; the sixteenth argument is refused
  (`SixteenAreRefused` shows such lines, `Runcmd` says it of all).

## Model

| member | source | states |
|---|---|---|
| StabSearch.SearchIsScan | kern/kdebug.c:50-94 | on every sorted region, unless both the address and its successor are entries, the search returns what the linear scan `Scan` returns: the last entry at or below the address and the place before the next entry; (left, left-1) without entries; the region before the first entry when all lie above |
| StabSearch.SearchIsScanIff | kern/kdebug.c:75-81 | for every sorted region without an entry for the largest 32-bit value, and every address, the search equals the linear scan iff no entry for address + 1 is in the window that a textbook search leaves at its first exact hit |
| StabSearch.AdjacentEntriesMislead | kern/kdebug.c:75-81 | a table of two functions one byte apart on which the entry for 0xf0100001 is reported as containing 0xf0100000 |
| StabSearch.WrapMisleads | kern/kdebug.c:75-81 | a table on which the entry for 0xffffffff is not found for that address: the region before it is returned |
| StabSearch.MissIsReportedIff | kern/kdebug.c:30-34 | when nothing contains the address, left > right iff the region has no entry of the type |
| StabSearch.MissIsNotReported | kern/kdebug.c:30-34 | a table in which no function contains 0xf0100000 and the search returns (0, 0), the file entry before the first function |
| StabSearch.SearchIsLogarithmic | kern/kdebug.c:56-82 | at most floor(log2(n)) + 2 iterations on a sorted region of n entries, although an exact hit may move neither bound |
| StabSearch.NarrowProbes | kern/kdebug.c:56-82 | on every table, each iteration that is not an exact hit halves the window |
| StabSearch.SearchReadsRegionOnly | kern/kdebug.c:56-93 | on every table, two tables that agree inside the region give the same result: nothing outside is read |
| StabSearch.StabBinsearch | kern/kdebug.c:50-94 | the C loops, on any table, return `BinSearch` after `Probes` iterations, and terminate, also when `addr++` wraps |
| Kdebug.LookupIsLinear | kern/kdebug.c:139-168 | on an orderly table the lookup succeeds iff a main-file entry other than the first table entry is at or below the address; it leaves the table iff that first entry is a main-file entry above it; its bounds are those of the linear scans |
| Kdebug.LookupNests | kern/kdebug.c:146-161 | with a function entry at or below the address in the file: lfile < lfun <= rfun <= rfile, lfun is the last such entry, rfun is just before the next function, and the parameters counted lie between lfun and rfun |
| Kdebug.FunctionIsFoundIff | kern/kdebug.c:146-161 | on an orderly table, when the function's bounds are not empty, its entry is a function entry iff some function entry of the file is at or below the address; otherwise it is the file's own entry |
| Kdebug.FileIsTakenForFunction | kern/kdebug.c:152-161 | a table with a file at 0xf0100000 and its only function at 0xf0100010: for 0xf0100004 the lookup succeeds with the name and the address of the file |
| Kdebug.FirstFileAboveLeavesTable | kern/kdebug.c:139-150 | a table that starts with a file above the address, on which the second search would start before the table |
| Kdebug.DebuginfoEip | kern/kdebug.c:104-206 | on every table and string table: panics iff the address is below 0xef800000; without success only the initial values; with it, the name is that of entry lfun if its string index is in the table, the name's length is the distance to its first ':' or NUL, the address is that of the entry, the file is that of the last naming entry in [lfile, lfun] (lfile alone without a function), and the argument count is the run of parameters after lfun and before rfun |
| Kdebug.NameLength | lib/string.c:111-118 | distance to the first ':' or NUL, inside the string table |
| Kdebug.NearestFile | kern/kdebug.c:189-192 | the greatest index not below lfile of an N_SOL entry, or of an N_SO entry with nonzero value |
| Kdebug.ParameterRun | kern/kdebug.c:199-203 | the longest run of N_PSYM entries that ends below rfun |
| Kdebug.LastParameterIsMissedIff | kern/kdebug.c:197-203 | the walk that stops below rfun counts less than one that includes rfun iff all entries from the first one after the function to rfun are parameters |
| Kdebug.OnlyParameterIsMissed | kern/kdebug.c:197-203 | a table of a function with one parameter, for which no argument is counted |
| Kdebug.StoreFunction | kern/kdebug.c:152-170 | name, name length and address of the function, with the string index checked against the table |
| Kdebug.StoreFile | kern/kdebug.c:189-194 | the file name is that of the nearest naming entry, if its string index is in the table |
| Kdebug.StoreNarg | kern/kdebug.c:199-203 | the argument count is the parameter run |
| Format.FormatsCompose | lib/printfmt.c:91-245 | if a format does not end inside a directive, the output of it followed by another format, on the concatenated arguments, is the concatenation of the outputs |
| Format.ParseConcat | lib/printfmt.c:91-134 | parsing is a homomorphism on such formats |
| Format.UnrecognisedPrintsBack | lib/printfmt.c:239-244 | an unrecognised escape with any flags, or a format that ends in '%' or in flags, prints back as it is, and uses up the arguments of its stars |
| Format.OneDirective | lib/printfmt.c:91-96 | a plain directive between literal texts |
| WrittenFormat.WrittenDirective | lib/printfmt.c:107-151 | a directive written as '%', perhaps '-', any string of digits or none, and perhaps '.' and any string of digits or none, means the conversion with the padding, width and precision of `Read`, for all numbers that fit `int` |
| WrittenFormat.ReadAsWrittenIff | lib/printfmt.c:105-147 | padding and precision are those written iff there is no '0' between '-' and the width, and what follows a '.' is a number that does not start with '0', or a positive one where '0' padding was asked for before the width |
| WrittenFormat.ZeroPrecisionPrintsAll | lib/printfmt.c:111-113 | `%.0s` prints the whole string, where precision 0 would print nothing |
| WrittenFormat.StarWidthUnderflows | lib/printfmt.c:136-147 | `%*s` with the least `int` as its width is undefined for every string but the empty one: counting the width down underflows |
| MinusFlag.MinusPadsRightIff | lib/printfmt.c:106-109 | for every numeric directive with '-' and every number, the output is sign or prefix, digits and then spaces iff the width is not above the number of digits |
| MinusFlag.StringPadsRight | lib/printfmt.c:106-109 | a string with '-' is padded on the right for every width and precision |
| MinusFlag.MinusPadsLeft | lib/printfmt.c:106-109 | `%-5d` of 42 is "---42" |
| WrittenFormat.NumeralIsRead | lib/printfmt.c:127-132 | the digits of a printed numeral are read back as its number |
| Printnum.FieldShape | lib/printfmt.c:175-188 | the length of a `%s` field is max(width, min(length, precision)); the padding is on the left, or on the right as spaces with '-'; the characters between are those of the string, shown |
| Printnum.NumeralSpells | lib/printfmt.c:35-50 | a numeral is the shortest run of digits '0' to '9' and 'a' to 'f' that denotes its number |
| Printnum.PutNumber | lib/printfmt.c:35-50 | the recursive printer puts the numeral, padded on the left to the width, for every width that can be counted down once for each digit; no step underflows |
| Conversions.NumericText | lib/printfmt.c:190-231 | for every format that is one numeric directive and every number: sign or "0x", padding, and the shortest lower-case digits that denote the number in base 8, 10 or 16 |
| Conversions.HexText | lib/printfmt.c:227-231 | `%x` of 57616 prints "e110" |
| Conversions.LongText | lib/printfmt.c:55-61 | one 'l' changes nothing; with two, the argument is a `long long`, and only then |
| Conversions.LongLongDefinedIff | lib/printfmt.c:190-198 | `%lld` is defined iff its argument is not the least `long long` and the width does not underflow |
| Conversions.NumberReadIff | lib/printfmt.c:127-132 | a width or precision is read iff no step overflows `int` |
| Conversions.CharText | lib/printfmt.c:159-161 | `%c` puts the `int` whose bits are the argument |
| Conversions.PercentText | lib/printfmt.c:234-236 | `%%` puts '%' and reads no argument |
| Conversions.NullText | lib/printfmt.c:175-177 | a null string prints "(null)" |
| Conversions.ErrorsText | lib/printfmt.c:20-28 | `%e` prints the six texts, for codes of either sign, and "error" with the code otherwise |
| Conversions.SharpText | lib/printfmt.c:181-185 | `%#s` prints the string with '?' for each character outside ' ' to '~' |
| Conversions.StarsText | lib/printfmt.c:136-151 | `%*.*s` prints the first p characters after spaces up to width w, whenever no width underflows |
| Conversions.OtherCharacters | lib/printfmt.c:104-244 | '%' before a character that is not among "-0123456789*.#l" and "cesduopx%" prints back |
| Printnum.PutField | lib/printfmt.c:175-188 | the loops of `%s` put the field, for every width that can be counted down by the padding and then once for each character; no step underflows |
| Printnum.Sprintbuf.Put | lib/printfmt.c:265-271 | counts every character and stores those that fit |
| Printnum.Strnlen | lib/string.c:21-29 | the smaller of the length and the bound |
| Vprintfmt.Vprintfmt | lib/printfmt.c:82-247 | for every terminated format and arguments with a defined meaning, the loops put exactly that meaning, never read past the terminator, overflow no width, precision or number, and terminate: the position grows with every round |
| Vprintfmt.PutEscape | lib/printfmt.c:98-245 | one escape: after a directive the position is after its conversion, after an unrecognised escape it is right after its own '%' |
| Vprintfmt.PutError | lib/printfmt.c:164-172 | the nested call prints the message of the error, or its number |
| Vprintfmt.Vsnprintf | lib/printfmt.c:273-288 | for every defined output of at most INT_MAX characters: the array holds the first min(length, n-1) characters, then NUL, and is otherwise untouched; the result is the full length; -E_INVAL for a null array or n < 1 |
| CString.CharBits | lib/printfmt.c:265-271 | a stored character keeps the low eight bits |
| CString.SignedBits | lib/printfmt.c:66-76 | signed arguments are those of the bits passed |
| Vprintfmt.Truncated | lib/printfmt.c:265-285 | what an array holds after a truncating print, place by place |
| Vprintfmt.TruncatedFits | lib/printfmt.c:265-285 | output that fits is a C string in the array |
| Strtol.PrintThenParse | lib/string.c:239-284 | for every numeric directive with any flags and every number: `strtol` reads the number back from the output, without overflow and up to the terminator, iff the number fits `long` and the directive is padded with zeros or not padded, or with spaces and nothing before them, or is a two-character 0 padded with '-'; whenever the number fits `long`, `strtol` does not overflow on the output |
| RoundTrip.PrintThenRead | lib/printfmt.c:273-288 | `vsnprintf` of one numeric directive into an array where it fits, then `strtol` on that array: for every number that fits `long`, value and end are the number and the length printed iff the directive can be undone |
| Strtol.UnsignedRoundTrip | lib/printfmt.c:200-231 | the same for unsigned numbers in bases 8, 10 and 16, every width and padding: read back iff the number fits `long` and the padding allows it |
| Strtol.SignedRoundTrip | lib/printfmt.c:190-198 | the same for signed decimals, where the sign comes before the padding |
| Strtol.PointerRoundTrip | lib/printfmt.c:217-224 | the same for `%p`, read with base 0 or 16; pointers above LONG_MAX, as into the kernel, are not read back |
| Strtol.DecimalIsInferred | lib/string.c:255-261 | with base 0, a positive decimal numeral is read back as decimal iff it fits `long` |
| Strtol.OctalIsInferred | lib/string.c:255-261 | with base 0, an octal numeral after '0' is read back as octal iff it fits `long` |
| Numerals.ReadsNumeral | lib/string.c:239-284 | `strtol` reads spaces and tabs, '+', '-' or no sign, the prefix of the base, and digits of either case in any base up to 36, up to the first character that is no digit of the base; the value is that of the digits with the sign, 0 without digits |
| Strtol.Strtol | lib/string.c:239-284 | blanks, sign, prefix and the longest run of digits give value and end position; no step overflows when the value fits `long` |
| Memory.Memmove | lib/string.c:141-169 | all four paths leave the old source at the destination and everything else unchanged, for every overlap |
| Memory.MemmoveC | lib/string.c:187-205 | so does the variant without string instructions |
| Memory.WordsMoveAllIff | lib/string.c:152-166 | moving whole words moves all cells iff the count is a multiple of four |
| Memory.Memset | lib/string.c:121-139 | both paths set every byte of the region to the low byte of the argument |
| Memory.ReplicatedBytes | lib/string.c:129-130 | each of the four bytes of the replicated word is the byte |
| Cga.Screen.Putc | kern/console.c:162-209 | from any state with the cursor on the screen, for every character: the screen stays the last window of the unbounded terminal; on the cells and the cursor themselves, a newline goes to the start of the next row, a return to the start of the row, a backspace one cell back, which it blanks, any other character is put in its colours and the cursor advances; past the last row all rows go up by one and the last one is blank |
| Cga.NewlineMoves | kern/console.c:175-180 | a newline moves the cursor 1 to 80 cells on, to the start of a row, writes nothing, and from the last row adds a blank row below |
| Cga.ReturnMoves | kern/console.c:178-180 | a return moves the cursor back to the start of its row and writes nothing |
| Cga.BackspaceErases | kern/console.c:170-174 | a backspace blanks the cell before the cursor and goes there; at the start of the window it does nothing |
| Cga.CharacterIsPut | kern/console.c:189-202 | any other character is put at the cursor, in its colours or in light grey, and after the last cell a blank row is added |
| Cga.ScrolledRowsNeverChange | kern/console.c:194-202 | over every run, what has left the window stays as it was, and the window only moves down |
| Cga.TabIsFiveSpaces | kern/console.c:182-188 | a tab types what five spaces type |
| Cga.TypeOneKeeps | kern/console.c:169-202 | one character only moves the window down and keeps the rows above it |
| Readline.EchoSpells | lib/readline.c:17-36 | at every step, for every sequence of keys, the cells from the end of the prompt to the cursor spell the edited line, across erasures, row wraps and scrolls |
| Readline.EchoAgreesWithBuffer | lib/readline.c:22-29 | and show the line's bytes, none of which is NUL and of which there are at most BUFLEN-1; `Readline` ties them to the buffer |
| Readline.Readline | lib/readline.c:7-37 | for every outcome, also while the line is unfinished: the buffer holds the bytes of the fold of the editing keys up to the first newline, return or error, and the echo on the screen, from the end of the prompt to the cursor, shows exactly these cells of the buffer; a finished line is terminated; the screen is prompt, echo and closing output; a negative key prints the error line |
| Readline.KeysAreTyped | lib/readline.c:26-29 | keys from the space bar on, DELETE aside, type their characters while there is room |
| Readline.FullLineIgnores | lib/readline.c:26 | a line of BUFLEN-1 characters ignores them |
| Readline.KeysAreErased | lib/readline.c:22-25 | each backspace or DELETE takes back one character |
| Readline.EmptyLineErases | lib/readline.c:22-26 | on the empty line a backspace does nothing and DELETE is inserted |
| Readline.ControlsChangeNothing | lib/readline.c:19-34 | other keys below the space change nothing and are not echoed |
| Readline.EndingIs | lib/readline.c:19-34 | a line is read iff a newline or return comes before any negative key, and the keys before it are the ones edited; the read fails iff a negative key comes first |
| Readline.ErrorLineIsPrinted | lib/readline.c:20 | the error line is the meaning of its format |
| ConsoleInput.LosslessIffNoOverrun | kern/console.c:385-429 | over every interleaving of interrupts and reads, bytes read followed by bytes pending are the nonzero bytes delivered, in order, iff no byte arrived when 511 were pending |
| ConsoleInput.OverrunsLoseBatches | kern/console.c:385-429 | over every run, bytes read followed by bytes pending are the nonzero bytes delivered, in order, without the 512 that end at each byte that arrived when 511 were pending |
| ConsoleInput.ZeroNeverQueued | kern/console.c:400-403 | zero bytes are never queued |
| ConsoleInput.Serve | kern/console.c:395-429 | the ring buffer refines the abstract queue on every interleaving |
| ConsoleInput.Cons.Store | kern/console.c:401-405 | appends below 511 pending bytes; the byte that would be the 512th empties the buffer |
| ConsoleInput.Cons.Getc | kern/console.c:410-429 | polls both devices, then takes the oldest byte, or returns 0 |
| Keyboard.ShiftState | kern/console.c:329-347 | for every history of scan codes: E0ESC iff the last code was the prefix; CTL and ALT iff the last matching event, prefixed or not, was a press; SHIFT likewise, without prefixed events; the locks are the parity of their unprefixed codes |
| Keyboard.HeldStep | kern/console.c:335-346 | how one more scan code changes whether a key is held |
| Keyboard.KbdIntr | kern/console.c:367-371 | no scan code ends the input loop early, the buffer receives the finished characters, and the shift word is again that of the whole history, of which `ShiftState` speaks |
| Keyboard.KeyTypes | kern/console.c:346-355 | for every history: a key types the entry of the table for the CTL and SHIFT keys held, with its case changed iff the number of CAPS LOCK codes is odd |
| Keyboard.LetterKeyTypes | kern/console.c:346-355 | a letter key types its letter, upper case iff either SHIFT is held or CAPS LOCK is on, but not both; with CTL held, its control character, whatever CAPS LOCK |
| Keyboard.OtherKeyTypes | kern/console.c:346-355 | CAPS LOCK changes no key that is no letter |
| Keyboard.NoCharacter | kern/console.c:326-334 | a prefix and a release finish no character |
| Keyboard.DeliveredAt | kern/console.c:367-371 | each character delivered is that of its scan code after all those before it |
| Keymap.Legends | kern/console.c:243-276 | the main keys have the characters of their rows, without and with SHIFT |
| Keymap.KeypadLegends | kern/console.c:243-276 | so has the keypad |
| Keymap.NavigationKeys | kern/console.c:256-261 | the prefixed keys have their codes |
| Keymap.WhiteKeys | kern/console.c:243-276 | escape, backspace, tab and space |
| Keymap.SilentKeys | kern/console.c:243-283 | all other keys have no character |
| Keymap.LetterKeys | kern/console.c:243-302 | a key is a letter in all tables or in none; with SHIFT it is upper case, with CTL it is a control character |
| Keymap.OtherControlKeys | kern/console.c:287-296 | of the other keys, three have a character with CTL |
| Keymap.PrefixedKeys | kern/console.c:256-302 | prefixed keys have the same character with SHIFT, and with CTL except '/', Enter and Home |
| Keyboard.Kbd.ProcData | kern/console.c:315-365 | one call: no data, mouse data, prefix, release, press; the character of the key under the new state |
| Boot.EveryByteIsLoaded | boot/main.c:50-56 | when address and offset of each segment are congruent and segments that share a block come from the same part of the image, every byte of every segment's blocks is in the end the byte of the image that belongs there |
| Boot.ByteIsRightIff | boot/main.c:84-87 | for all segments that memory and image hold: a byte of a segment is right in the end iff the last segment whose blocks cover it, that one or a later one, takes it from an equal byte of the image |
| Boot.IncreasingOrderDoesNotHelp | boot/main.c:84-87 | an image with two congruent segments that lie apart, in increasing order, in which loading the second destroys a byte of the first |
| Boot.OtherMemoryIsKept | boot/main.c:43-56 | memory that no block covers, outside the scratch page, is unchanged |
| Boot.Bootmain | boot/main.c:38-67 | bad magic gives up; otherwise memory is the scratch page and then every segment loaded in order, although the headers are read from the memory being written, for every image whose headers are in the first page and whose segments keep off the scratch page; the entry point is jumped to |
| Boot.LittleEndian | boot/main.c:50-56 | a header field is read least significant byte first |
| Boot.Readseg | boot/main.c:71-96 | whole sectors from the block of the first byte to the block of the last one, when these lie below 2^32 |
| Monitor.Runcmd | kern/monitor.c:71-108 | a command is run iff there are 1 to 15 arguments and the first is its name; more than 15 are refused; each argument, read as a C string in place, is its run of the line, and the argument array ends with null |
| Monitor.BlankCharacters | kern/monitor.c:67-68 | blanks are the characters of "\t\r\n " |
| Monitor.HelpRuns | kern/monitor.c:71-108 | a line of a tab, "help" and blanks runs the first command with one argument |
| Monitor.SixteenAreRefused | kern/monitor.c:88-92 | a line of n one-letter arguments has n arguments and is refused iff n is at least 16 |
| Monitor.WordsAreRuns | kern/monitor.c:81-96 | the arguments are maximal runs of characters that are not blank |
| Monitor.WordsAreOrdered | kern/monitor.c:81-96 | they come from left to right |
| Monitor.WordsCover | kern/monitor.c:81-96 | every character that is not blank is in one of them |
| Monitor.ArgumentsRead | kern/monitor.c:82-95 | after the cut, an argument read as a C string is its run |
| Monitor.Strcmp | lib/string.c:79-85 | the difference of the first differing characters |
| Monitor.DifferenceZeroIff | lib/string.c:79-85 | zero iff the strings are equal |
| Monitor.DifferenceAt | lib/string.c:79-85 | the result is the difference of the first characters that differ, as unsigned characters, the terminator being 0 |
| Shell.Round | kern/monitor.c:124-129 | one round of the monitor shows "K> " and the echo, runs the command of the line that the keys typed, with the runs of that line as its arguments, each a C string in the buffer, and runs nothing on a read error |
| Shell.TextIsTyped | lib/readline.c:19-34 | a printable text of less than BUFLEN characters and a newline or return type exactly that text |
| Shell.TypedLineIsText | lib/readline.c:26-34 | a typed line holds no terminator and leaves room for one |
| Framing.ChunkingDoesNotMatter | gradelib.py:326-346 | for every framing in which more input does not change a frame that was found, and every cut of a stream into chunks: the frames examined, the stop, and what is left are those of the whole stream |
| Gradelib.PacketsIgnoreChunks | gradelib.py:326-346 | so for the packets up to the first "T05" |
| Gradelib.SearchStable | gradelib.py:338 | the leftmost packet of a buffer stays the leftmost when input is appended |
| Gradelib.NextPacketIs | gradelib.py:338-342 | the packet found is what lies between the leftmost '$' and '#' that two letters or digits follow, with no '#' between, and the buffer is consumed to the end of these two |
| Gradelib.NoPacketIs | gradelib.py:338-340 | none is found iff there is none |
| Gradelib.FirstPacket | gradelib.py:337-346 | a buffer that starts with a packet: reading stops after it iff it starts with "T05" |
| Gradelib.GdbClient.HandleRead | gradelib.py:326-346 | one delivery: the packets examined, the buffer left, the exception |
| Gradelib.ReadPackets | gradelib.py:326-346 | all deliveries: the packets examined are those of the concatenated stream |
| Gradelib.LinesIgnoreChunks | gradelib.py:529-538 | so for the lines up to the first on which the callback raises |
| Gradelib.LinesAreSplit | gradelib.py:531-537 | the lines examined, each with its newline, and what is left are the buffer; no line holds a newline, only the last one can stop |
| Gradelib.MatchingAppend | gradelib.py:535-537 | the lines passed on are the matching ones, in order |
| Gradelib.LineMonitor.HandleOutput | gradelib.py:531-537 | one chunk: the lines passed to the callback are the matching ones |
| Gradelib.ReadLines | gradelib.py:531-538 | all chunks: the lines passed to the callback are those of the concatenated output |

## Left out

- Port I/O, delays, the serial and parallel ports, disk waits, the mode switches of boot.S and entry.S: hardware effects.
- The line-number search and `mon_backtrace`: not written in this kernel.
- The count that `cprintf` returns: kern/printf.c:13 advances the pointer and not the counter.
- `%e` of the least `int`, `%lld` of the least `long long`, a width or precision whose reading overflows `int`, a width whose counting down does, missing or mistyped arguments: undefined in C, `Undefined` in the model.
- Strtol: requires a magnitude of at most LONG_MAX; above it the accumulation overflows a `long`, which C leaves undefined.
- Bootmain: requires the program headers to lie in the first page and segments to keep off the scratch page; the code reads whatever memory holds otherwise.
- Vsnprintf: requires an output of at most INT_MAX characters, so that `cnt` does not overflow; the count of `Sprintbuf` itself is unbounded, and so is `lflag`.
- The sink of `vprintfmt` is always the `sprintbuf` object; `cprintf` on the screen is modelled by putting the meaning of its format (`PutAll`).
- `memmove` of screen cells: `cga_putc` moves 16-bit cells; the model moves them as cells and not as pairs of bytes.
- The C variant of `memset`: a plain fill loop.
- The reboot on Ctrl-Alt-Del, and what the commands and `runcmd` itself print: side effects outside the modelled state.
- SearchIsScanIff: its exact condition names the window of a textbook search for the address, because whether the bumped key hits again depends on the probes made before the first hit; that no entry equals address + 1 is the simple sufficient condition, in `SearchIsScan`. Regions with an entry for the largest 32-bit value, at which `addr++` wraps, are covered by `SearchIsScan` and `NarrowProbes` but not by this condition.
- `assert_lines_match` and the rest of gradelib.py: a filter over lines, and process handling.
- strlen, strcpy, strncmp and the other string functions that no modelled code calls: easy members.
