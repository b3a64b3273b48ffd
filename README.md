# Tk platform drawing helpers and the tko widget core

This project is a Dafny model of seven C files from Tk:

- **`macosx/tkMacOSXImage.c`**: the macOS XImage emulation.
  - `XCreateImage` lays out rows.
  - `ImageGetPixel` and `ImagePutPixel` read and write pixels at depths 1, 4, 8, 16 and 32.
  - One function converts an XImage into a Core Graphics image.
  - `XGetImage` permutes captured bitmap bytes into RGBA order.
  - `XCopyArea` and `XCopyPlane` guard their arguments.
- **`macosx/tkMacOSXFileTypes.c`**: turns four-character OSTypes into UTIs and picks the icon for a file type.
- **`win/tkWinHDC.c`**: the registry of named device contexts (create, validate, delete, get, type, prefix, list).
- **`win/tkWinGDI.c`**: the GDI print command's argument handling:
  - mapping-mode names;
  - font style words and weights;
  - colour names, both the system-colour table and `#rgb` hex;
  - pen dash lists;
  - the copy rectangle and the photo destination;
  - the photo's RGB to BGR transfer;
  - the DIB palette, depth and size rules.
- **`generic/tko/tkoWidget.c`**: the option table of tko widgets:
  - option flags;
  - hiding and showing options, both per class and per object;
  - adding, reading and setting options;
  - listing them for `configure`.
- **`generic/tko/tkoFrame.c`**: the frame, labelframe and toplevel widgets:
  - label measurement;
  - internal borders;
  - minimum and requested size;
  - label placement;
  - tiled and centred background images;
  - the redraw and focus flags.
- **`unix/tkUnixButton.c`**: check and radio indicator images (colour strings, placeholder substitution, image names), relief, offset shifting, clipping and button geometry.

Pure code is modelled as datatypes, functions and lemmas. Code that changes state becomes imperative Dafny:

- the widget, the frame, the button, the XImage, the device-context registry and the OSType table are classes;
- the pixel buffers are arrays;
- loops (binary search, string substitution, byte permutation, tiling, table scans) are methods with invariants, proved against specification functions.

C's 32-bit arithmetic is written out where it matters. Examples: the XGetImage size check, `(WORD)` truncation and `CHARS_TO_OSTYPE`. Truncating C division is `Wrappers.CDiv`.

Each module has its own file:

| file | module |
|---|---|
| `wrappers.dfy` | `Wrappers` |
| `mac_image.dfy` | `MacImage` |
| `mac_filetypes.dfy` | `MacFileTypes` |
| `win_hdc.dfy` | `WinHdc` |
| `win_gdi.dfy` | `WinGdi` |
| `win_gdi_color.dfy` | `WinGdiColor` |
| `win_gdi_draw.dfy` | `WinGdiDraw` |
| `tko_widget.dfy` | `TkoWidget` |
| `tko_frame.dfy` | `TkoFrame` |
| `unix_button.dfy` | `UnixButton` |

## Model

| member | source | states |
|---|---|---|
| Wrappers.CDiv | win/tkWinGDI.c:593-601 | C's division truncating toward zero: equals Euclidean division for non-negative numerators and rounds up toward zero for negative ones |
| MacImage.DefaultBytesPerLineIsPaddedRow | macosx/tkMacOSXImage.c:370-376 | the default bytes per line is the smallest multiple of the pad (in bytes) that holds a row of width × bits-per-pixel bits |
| MacImage.StrideIsRoundDown | macosx/tkMacOSXImage.c:370-376 | the masking with `~(pad/8 - 1)` rounds the byte count down to a multiple of pad/8 |
| MacImage.CreateLayout | macosx/tkMacOSXImage.c:329-395 | a new image has 1 or 32 bits per pixel, a non-zero pad, and keeps a caller-supplied bytes-per-line |
| MacImage.CreateLayoutPadsRows | macosx/tkMacOSXImage.c:361-376 | with bytes-per-line 0 the computed row length is padded to the pad and is the minimal such length |
| MacImage.CreateLayoutFormat | macosx/tkMacOSXImage.c:354-369 | ZPixmap ⇔ 32 bits per pixel and 32-bit units, otherwise 1 bit and 8-bit units; a pad of 0 becomes the default pad of 128 bits (a given pad of 128 is kept as is) |
| MacImage.XImage.constructor | macosx/tkMacOSXImage.c:329-395 | the new image has the computed layout and the given data buffer |
| MacImage.PutPixelBytes | macosx/tkMacOSXImage.c:269-310 | storing a pixel keeps the buffer length |
| MacImage.ImageGetPixel | macosx/tkMacOSXImage.c:194-250 | a null image or one without data reads as black |
| MacImage.ImagePutPixel | macosx/tkMacOSXImage.c:269-310 | the image data afterwards are the old bytes with the pixel stored at its address; a null image or null data is left alone |
| MacImage.RoundTrip32 | macosx/tkMacOSXImage.c:212-214 | reading back a 32-bit pixel gives the red, green and blue bytes of the stored value |
| MacImage.RoundTrip | macosx/tkMacOSXImage.c:194-310 | at every depth, get after put returns the stored colour quantized to that depth |
| MacImage.RoundTrip16 | macosx/tkMacOSXImage.c:221-223 | at depth 16, get after put returns the 5-5-5 quantization of the stored colour |
| MacImage.PutChangesOnlyItsBytes | macosx/tkMacOSXImage.c:276-305 | a put changes no byte outside the bytes addressed by the pixel |
| MacImage.PutNibbleKeepsOtherNibble | macosx/tkMacOSXImage.c:283-300 | at depth 4 a put keeps the other nibble of its byte |
| MacImage.PutBitKeepsOtherBits | macosx/tkMacOSXImage.c:283-305 | at depth 1 a put keeps the other seven bits of its byte |
| MacImage.PutLeavesOtherPixels | macosx/tkMacOSXImage.c:194-310 | a put at x leaves the value read at any other x' of the row unchanged |
| MacImage.GetReadsOnlyItsBytes | macosx/tkMacOSXImage.c:207-242 | a read depends only on the bytes the pixel occupies |
| MacImage.BitReverse | macosx/tkMacOSXImage.c:83-93 | bit i of the result is bit 7-i of the input |
| MacImage.BitReverseInvolution | macosx/tkMacOSXImage.c:83-93 | reversing twice gives the original byte |
| MacImage.MaskBytes | macosx/tkMacOSXImage.c:72-101 | mask data are copied byte for byte, bit-reversed unless the order is MSB first |
| MacImage.MaskBytesInvertible | macosx/tkMacOSXImage.c:83-93 | the LSB-first conversion is its own inverse, so no information is lost |
| MacImage.CreateCGImageCases | macosx/tkMacOSXImage.c:58-140 | a conversion yields an image exactly when the source is 1 bit deep, or is a 32-bit ZPixmap that is not 0×0; 1-bit images become masks of the (reversed) bytes, 32-bit ones colour images with the matching byte order |
| MacImage.CopyMaskData | macosx/tkMacOSXImage.c:83-93 | the new buffer holds the requested slice of the data, bit-reversed as the mask conversion requires |
| MacImage.CreateCGImageWithXImage | macosx/tkMacOSXImage.c:58-140 | the method returns the image the conversion function describes for the current data |
| MacImage.MaskImageOf | macosx/tkMacOSXImage.c:72-101 | a 1-bit image converts to a 1-bit, 1-component mask of the image's width, height and row length |
| MacImage.PermutedAt | macosx/tkMacOSXImage.c:711-723 | in the permuted bitmap, byte c of a pixel comes from byte order[c] of the same pixel |
| MacImage.PermutedPadding | macosx/tkMacOSXImage.c:711-723 | bytes after the last pixel of a row are not moved |
| MacImage.PermutedPixel | macosx/tkMacOSXImage.c:711-723 | all four bytes of each pixel are permuted by the given order |
| MacImage.PermutedPixelIsRgba | macosx/tkMacOSXImage.c:650-651 | with the order chosen from the bitmap format, every pixel ends in red, green, blue, alpha order |
| MacImage.PermuteToRgba | macosx/tkMacOSXImage.c:711-723 | the in-place loop leaves exactly the permuted bitmap |
| MacImage.PermuteRow | macosx/tkMacOSXImage.c:711-723 | after one row the rows so far are permuted and the rest is untouched |
| MacImage.PermuteRowPixel | macosx/tkMacOSXImage.c:711-723 | after one pixel every earlier byte is permuted and every later one untouched |
| MacImage.PermutePixel | macosx/tkMacOSXImage.c:716-722 | one pixel's four bytes are rearranged by the order; every other byte keeps its value |
| MacImage.RecognizedAsWrittenAdmitsOverrun | macosx/tkMacOSXImage.c:688-700 | the 32-bit size check accepts a capture of 16384×65537 pixels whose byte count is smaller than height × bytes per row |
| MacImage.RecognizedIsStricter | macosx/tkMacOSXImage.c:688-700 | every capture the corrected check accepts is one the written check accepts |
| MacImage.CopyPlane | macosx/tkMacOSXImage.c:701 | the new bitmap is a fresh copy of the captured bytes |
| MacImage.GetImage | macosx/tkMacOSXImage.c:654-726 | on a recognized capture the result is a fresh 32-bit ZPixmap of the requested size whose data are the RGBA-permuted capture; otherwise null |
| MacImage.GetImagePixelsAreRgba | macosx/tkMacOSXImage.c:650-651 | for both bitmap formats each pixel's bytes land in red, green, blue, alpha order |
| MacImage.CopyAreaGuard | macosx/tkMacOSXImage.c:773-775 | copying an area never panics |
| MacImage.CopyGuards | macosx/tkMacOSXImage.c:773-775 | both copies report BadDrawable exactly for zero width or height; a plane copy with a plane other than 1 and a non-empty size panics; with plane 1 it behaves as an area copy |
| MacFileTypes.OSTypeChars | macosx/tkMacOSXFileTypes.c:32-35 | an OSType spells four characters |
| MacFileTypes.PackBytes | macosx/tkMacOSXFileTypes.c:32-35 | each of the four bytes packed into a code can be read back from its position |
| MacFileTypes.OSTypeCharsOfCode | macosx/tkMacOSXFileTypes.c:32-35 | packing then spelling gives back the first four bytes of the string |
| MacFileTypes.CodeOfOSTypeChars | macosx/tkMacOSXFileTypes.c:32-35 | spelling then packing gives back the code |
| MacFileTypes.CharsToOSTypeInjective | macosx/tkMacOSXFileTypes.c:32-35 | two strings pack to the same code exactly when their first four bytes agree |
| MacFileTypes.PackInjective | macosx/tkMacOSXFileTypes.c:32-35 | packing is injective in its four bytes |
| MacFileTypes.AsWrittenAgreesOnAscii | macosx/tkMacOSXFileTypes.c:32-35 | for bytes below 0x80 the sign-extending macro agrees with the unsigned packing |
| MacFileTypes.AsWrittenCollides | macosx/tkMacOSXFileTypes.c:32-35 | with a signed char, 00 80 00 00 and ff 80 00 00 pack to the same code although they differ |
| MacFileTypes.BuiltFirstWins | macosx/tkMacOSXFileTypes.c:39-52 | the table has a key exactly for the codes of the database; the first entry with that code gives its identifier |
| MacFileTypes.FirstExists | macosx/tkMacOSXFileTypes.c:39-52 | every code present in the database has a first entry |
| MacFileTypes.OSTypeTable.constructor | macosx/tkMacOSXFileTypes.c:39-52 | a new table holds the database and is not yet initialised |
| MacFileTypes.OSTypeTable.Init | macosx/tkMacOSXFileTypes.c:39-52 | afterwards the table is initialised and consistent with the database |
| MacFileTypes.OSTypeTable.OSTypeToUTI | macosx/tkMacOSXFileTypes.c:54-65 | the result is the identifier of the first database entry with that code; none exactly when no entry has the code |
| MacFileTypes.OSTypeTable.IconForFileType | macosx/tkMacOSXFileTypes.c:73-105 | the icon's type is the one chosen by the lookup order (identifier, extension, OSType of the first four bytes of the C string when it has them, then generic) |
| MacFileTypes.OSTypeStepReadsPastShortString | macosx/tkMacOSXFileTypes.c:79-92 | as written, the OSType step is taken for an untyped string shorter than three bytes, whose C string (bytes and terminator) is shorter than the four bytes read; the corrected step is not taken |
| MacFileTypes.OSTypeStepAgreesFromThreeBytes | macosx/tkMacOSXFileTypes.c:79-92 | for strings of three bytes or more, whose C string holds at least four bytes, the written and corrected conditions agree |
| MacFileTypes.FirstIdentifier | macosx/tkMacOSXFileTypes.c:54-65 | no identifier exactly when no database entry has the code |
| MacFileTypes.IconType | macosx/tkMacOSXFileTypes.c:73-105 | any type that is returned is a declared one |
| MacFileTypes.IconLookupOrder | macosx/tkMacOSXFileTypes.c:73-105 | a declared identifier type wins, then a declared extension type; when neither is declared, the OSType step runs for a string of three bytes or more whose extension lookup gave nothing, or for a four-byte string whose extension type is undeclared, and yields the declared type named by the first database entry for the OSType of the first four bytes of the C string, or none; every other case (a string under three bytes, or an undeclared extension type on a string not four bytes long) has no type |
| MacFileTypes.BuiltIsFirstIdentifier | macosx/tkMacOSXFileTypes.c:39-65 | the table built at initialisation answers every lookup as the first-entry search does |
| MacFileTypes.FirstIdentifierIsFirst | macosx/tkMacOSXFileTypes.c:54-65 | when entry i is the first with the code, the lookup returns its identifier |
| WinHdc.Truncated | win/tkWinHDC.c:188-197 | a new prefix is cut to at most 32 characters and is a prefix of the given text |
| WinHdc.MatchingSound | win/tkWinHDC.c:220-248 | every listed name is registered with the requested type and comes from the registry |
| WinHdc.MatchingComplete | win/tkWinHDC.c:220-248 | every registered name with the requested type is listed |
| WinHdc.MatchingAll | win/tkWinHDC.c:220-248 | type 0 lists every name |
| WinHdc.MatchingDistinct | win/tkWinHDC.c:220-248 | a repeat-free iteration order lists each matching name once |
| WinHdc.HdcRegistry.constructor | win/tkWinHDC.h:11-15 | a new registry has no contexts and no prefixes |
| WinHdc.HdcRegistry.Create | win/tkWinHDC.c:31-50 | the new name maps to the address and type; it is valid for that type and for 0; every other name is unchanged |
| WinHdc.HdcRegistry.Valid | win/tkWinHDC.c:66-79 | 1 exactly when the name is registered and the type matches or the requested type is not positive; otherwise 0 |
| WinHdc.HdcRegistry.Delete | win/tkWinHDC.c:95-109 | 1 exactly when the name was registered; afterwards the name is gone and is valid for no type |
| WinHdc.HdcRegistry.Get | win/tkWinHDC.c:124-135 | the registered address, or 0 for an unknown name |
| WinHdc.HdcRegistry.TypeOf | win/tkWinHDC.c:151-160 | the registered type, for which the name is valid |
| WinHdc.HdcRegistry.PrefixOf | win/tkWinHDC.c:175-205 | without a new prefix the stored one is returned unchanged; with one, its first 32 characters are stored and returned |
| WinHdc.HdcRegistry.List | win/tkWinHDC.c:220-248 | writes as many matching names as fit, in order and without repeats when the iteration order has none; each is valid for the type; the count says how many |
| WinGdi.DropSpace | win/tkWinGDI.c:2009 | atoi skips a suffix-preserving run of leading white space |
| WinGdi.DigitRun | win/tkWinGDI.c:2009 | atoi reads the longest run of leading digits |
| WinGdi.Digits | win/tkWinGDI.c:2009 | the decimal spelling of a number is a non-empty digit string |
| WinGdi.DecValueOfDigits | win/tkWinGDI.c:2009 | reading a number's digits gives back the number |
| WinGdi.AtoiOfDecimal | win/tkWinGDI.c:2009 | atoi of an integer's decimal spelling, followed by anything that does not start with a digit, is the integer |
| WinGdi.AtoiOfDigits | win/tkWinGDI.c:2009 | atoi of a natural's digits followed by a non-digit is the natural |
| WinGdi.AtoiOfDigitString | win/tkWinGDI.c:2009 | atoi reads a leading digit string as its decimal value |
| WinGdi.AtoiOfDigitsAlone | win/tkWinGDI.c:2009 | atoi of a natural's digits is the natural |
| WinGdi.AtoiUnsigned | win/tkWinGDI.c:2009 | after white space, a digit string gives its value |
| WinGdi.AtoiOfNegative | win/tkWinGDI.c:2009 | a minus sign before digits gives the negated value |
| WinGdi.AtoiOfNegativeString | win/tkWinGDI.c:2009 | a minus sign before a digit string gives its negated value |
| WinGdi.AtoiNegative | win/tkWinGDI.c:2009 | after white space, a minus sign and digits give the negated value |
| WinGdi.ModeNamed | win/tkWinGDI.c:1993-2008 | a mode is found exactly when some table entry carries the name, and it is that entry's mode |
| WinGdi.NameOfMode | win/tkWinGDI.c:2026-2049 | a description is found exactly when some entry carries the mode, and it is that entry's name |
| WinGdi.NameToMode | win/tkWinGDI.c:1987-2010 | the table scan returns the mode the name denotes, falling back on atoi |
| WinGdi.ModeToName | win/tkWinGDI.c:2026-2049 | the table scan returns the mode's description, or "Unknown" |
| WinGdi.ModeOfTableName | win/tkWinGDI.c:1993-2008 | every name in the table maps to its own mode |
| WinGdi.ModeNamesDistinct | win/tkWinGDI.c:1993-2000 | no two entries of the name table share a name |
| WinGdi.ModeOfDecimal | win/tkWinGDI.c:2004-2009 | a decimal number that names no mode maps to that number |
| WinGdi.DescribedModes | win/tkWinGDI.c:2026-2049 | a mode has a description other than "Unknown" exactly when it is between MM_TEXT and MM_ANISOTROPIC |
| WinGdi.NamedModesDescribed | win/tkWinGDI.c:1987-2049 | every named mode maps back to a real description |
| WinGdi.WeightInTable | win/tkWinGDI.c:2786-2825 | -1 exactly when no entry has the word; any other result is a valid weight |
| WinGdi.WordToWeight | win/tkWinGDI.c:2786-2825 | the scan returns the weight the word denotes |
| WinGdi.WeightKnown | win/tkWinGDI.c:2786-2825 | a word has a weight exactly when it is in the weight table, and that weight is valid |
| WinGdi.LogFont.constructor | win/tkWinGDI.c:2742-2770 | a new font record has the given style |
| WinGdi.ParseFontWords | win/tkWinGDI.c:2742-2770 | the font afterwards is the old style with each word applied in turn; the count is the number of unrecognised words |
| WinGdi.UnderlineIff | win/tkWinGDI.c:2742-2770 | the result is underlined exactly when the font was or some word is "underline" |
| WinGdi.StrikeOutIff | win/tkWinGDI.c:2742-2770 | the result is struck out exactly when the font was or some word is "overstrike" |
| WinGdi.LastWeightWins | win/tkWinGDI.c:2742-2770 | the last weight word decides the weight |
| WinGdi.LastSlantWins | win/tkWinGDI.c:2742-2770 | the last of "roman" and "italic" decides the slant |
| WinGdi.UnrecognizedBound | win/tkWinGDI.c:2742-2770 | at most the non-null words are counted as unrecognised |
| WinGdi.DIBNumColors | win/tkWinGDI.c:2674-2714 | the result fits a WORD; a used-colour count is returned truncated to 16 bits; otherwise 2, 16 or 256 for depths 1, 4 and 8, and 0 for any other depth |
| WinGdi.ClrUsedTruncated | win/tkWinGDI.c:2688-2689 | a colour count of 65536 is returned as 0 by the WORD cast |
| WinGdi.DIBDepth | win/tkWinGDI.c:4360-4371 | the planes × bits product, as a WORD, gives depth 1 up to 1 bit, 4 up to 4, 8 up to 8 and 24 beyond 8; so the depth is the smallest of 1, 4, 8, 24 that holds the product when it is at most 24 |
| WinGdi.DIBDepthIdempotent | win/tkWinGDI.c:4360-4371 | a depth that is already 1, 4, 8 or 24 is kept |
| WinGdi.DIBImageSizeRows | win/tkWinGDI.c:4437-4438 | the made-up image size is height rows of the smallest multiple of 4 bytes that holds width × bits bits |
| WinGdi.DIBLength | win/tkWinGDI.c:4441 | the block holds the 40-byte header, the colour table for the depth (2, 16 or 256 four-byte entries for depths 1, 4 and 8, none for deeper images) and the image |
| WinGdiColor.ColorRefChannels | win/tkWinGDI.c:4056 | the red, green and blue bytes of a COLORREF can be read back from it |
| WinGdiColor.CompareFromZeroIff | win/tkWinGDI.c:3983-3999 | the case-insensitive comparison from position k is 0 exactly when the lengths agree and the remaining characters agree ignoring case |
| WinGdiColor.CompareFromAntisymmetric | win/tkWinGDI.c:3983-3999 | swapping the arguments negates the comparison |
| WinGdiColor.CompareFromTransitive | win/tkWinGDI.c:3983-3999 | the comparison is transitive |
| WinGdiColor.CompareCIZeroIff | win/tkWinGDI.c:3983-3999 | two names compare equal exactly when they are the same name ignoring case |
| WinGdiColor.CompareCIAntisymmetric | win/tkWinGDI.c:3983-3999 | swapping the names negates the comparison |
| WinGdiColor.CompareCITransitive | win/tkWinGDI.c:3983-3999 | the comparison is transitive, so it orders the tables |
| WinGdiColor.AdjacentSortedIsSorted | win/tkWinGDI.c:3983-3999 | a table whose neighbours are in order is sorted |
| WinGdiColor.AsWrittenProbesPastEnd | win/tkWinGDI.c:3983-3999 | with the upper bound set to the table size, a key above every name probes one past the last entry; the system-colour search and the X-colour search (win/tkWinGDI.c:4064-4076) both start this way |
| WinGdiColor.Search | win/tkWinGDI.c:3983-3999 | a found index holds the key's name; on a sorted table, not found means no entry has the name |
| WinGdiColor.BelowProbe | win/tkWinGDI.c:3983-3999 | a key below the probe is below every later entry of a sorted table |
| WinGdiColor.AboveProbe | win/tkWinGDI.c:3983-3999 | a key above the probe is above every earlier entry of a sorted table |
| WinGdiColor.SysColorsSorted | win/tkWinGDI.c:3183-3210 | the system-colour table is sorted case-insensitively, as the binary search requires |
| WinGdiColor.SystemSearchReadsPastEnd | win/tkWinGDI.c:3983-3999 | the name "systemZz" makes the written search probe entry 26 of a 26-entry table |
| WinGdiColor.HexValueDefined | win/tkWinGDI.c:4022-4057 | a digit string has a hexadecimal value exactly when every character is a hex digit |
| WinGdiColor.ParseHexAccepts | win/tkWinGDI.c:4022-4057 | `#` colours are accepted exactly for 3, 6, 9 or 12 hex digits |
| WinGdiColor.ParseHexFitsBytes | win/tkWinGDI.c:4022-4057 | an accepted hex colour has three channels below 256 |
| WinGdiColor.HexRoundTrip | win/tkWinGDI.c:4022-4057 | formatting a value in n hex digits and parsing it gives the value back |
| WinGdiColor.ParseHexOfFormatted | win/tkWinGDI.c:4022-4057 | parsing three n-digit fields gives each field scaled to 8 bits |
| WinGdiColor.SixDigitsExact | win/tkWinGDI.c:4022-4057 | `#rrggbb` parses to exactly those bytes |
| WinGdiColor.ParseColor | win/tkWinGDI.c:4020-4082 | `#` names give their hex colour; other names give a colour only from a case-insensitively matching entry of the named-colour table, and on a sorted table none only when no entry matches; the lookup uses the corrected search, whose upper bound starts at the last index |
| WinGdiColor.GetColor | win/tkWinGDI.c:3977-4003 | names with the "system" prefix give the system colour of a matching entry, or nothing exactly when none matches; `#` names give their hex colour; other names give a colour only from a matching X entry, and on a sorted table nothing only when no entry matches |
| WinGdiDraw.TokenLength | win/tkWinGDI.c:3020-3025 | a token runs to the first delimiter |
| WinGdiDraw.TokensWellFormed | win/tkWinGDI.c:3020-3025 | tokens are non-empty and contain no delimiter |
| WinGdiDraw.TokensOfJoined | win/tkWinGDI.c:3020-3025 | tokenizing words joined by blanks gives back the words |
| WinGdiDraw.DashesOfCharsBound | win/tkWinGDI.c:3026-3048 | character dashes yield at most one entry per character, each 2, 4, 6 or 8 |
| WinGdiDraw.DashEntriesBound | win/tkWinGDI.c:3008-3050 | at most 24 entries; character dash lists give only 2, 4, 6 or 8 |
| WinGdiDraw.DashNumbers | win/tkWinGDI.c:3020-3025 | a list of numbers written as decimals parses back to those numbers |
| WinGdiDraw.ParseDashes | win/tkWinGDI.c:3008-3050 | the style array starts with the parsed dash entries and is unchanged after them |
| WinGdiDraw.NumberDashes | win/tkWinGDI.c:3020-3025 | up to 24 tokens are stored as their atoi values |
| WinGdiDraw.CharDashes | win/tkWinGDI.c:3026-3048 | the style array starts with the character dash entries |
| WinGdiDraw.PenDashOf | win/tkWinGDI.c:3008-3058 | the pen is user-styled exactly when dashing is asked for and the data are absent or give at least one entry; the entries are the parsed dashes |
| WinGdiDraw.NormalizeCopy | win/tkWinGDI.c:2565-2578 | negative origins become 0; a source size that is not positive or too large becomes the window size |
| WinGdiDraw.CopyDestination | win/tkWinGDI.c:2587-2594 | a zero destination size takes the source size; height -1 is computed in proportion to the width (for a positive width the height brackets the exact ratio; for a negative width the truncated quotient plus one is kept unless it is 0, which takes the source size); with a non-empty source the size is never 0 |
| WinGdiDraw.HeightInProportion | win/tkWinGDI.c:2587-2588 | the truncating division brackets the exact quotient |
| WinGdiDraw.StrideIsPadded | win/tkWinGDI.c:550 | the row length is a multiple of 4 holding three bytes per pixel, with less than 4 bytes of padding |
| WinGdiDraw.DestIndexInjective | win/tkWinGDI.c:562-573 | distinct pixels and channels go to distinct bytes of the buffer |
| WinGdiDraw.PhotoToBgr | win/tkWinGDI.c:548-573 | the buffer holds each photo pixel with red and blue swapped |
| WinGdiDraw.FillRow | win/tkWinGDI.c:564-572 | one row is filled in BGR order and no other byte changes |
| WinGdiDraw.StorePixel | win/tkWinGDI.c:566-571 | three bytes are stored and no other byte changes |
| WinGdiDraw.DestinationArgs | win/tkWinGDI.c:498-527 | fewer than two numbers is an error; two set the origin; three set the width with height -1; four set both |
| WinGdiDraw.PhotoDestDividesByZero | win/tkWinGDI.c:593-601 | as written, an empty photo with a width and no height divides by zero |
| WinGdiDraw.PhotoDestSize | win/tkWinGDI.c:593-601 | no width gives the photo size; width and height are kept; a width alone gives the proportional height |
| WinGdiDraw.PhotoDestSizeAgrees | win/tkWinGDI.c:593-601 | the written and corrected rules agree except when the division by zero happens |
| TkoWidget.WordBits | generic/tko/tkoWidget.h:104-107 | each flag bit of the flag word is set exactly when the flag is |
| TkoWidget.FlagsObj | generic/tko/tkoWidget.c:3117-3154 | a flag string is rejected exactly when malformed; otherwise "r" and "h" add readonly and hidden, keeping the other bits |
| TkoWidget.HideGet | generic/tko/tkoWidget.c:3165-3174 | 1 exactly when the flags include hidden |
| TkoWidget.HideSet | generic/tko/tkoWidget.c:3185-3196 | the result is well formed and hidden; the other flags are kept |
| TkoWidget.HideUnsetAsWritten | generic/tko/tkoWidget.c:3207-3230 | the result is well formed and not hidden |
| TkoWidget.HideUnsetDropsReadonly | generic/tko/tkoWidget.c:3207-3230 | as written, unsetting hidden on "r" gives "", losing readonly |
| TkoWidget.HideUnset | generic/tko/tkoWidget.c:3207-3230 | the result is well formed and not hidden; the other flags are kept |
| TkoWidget.HideUnsetAgreesOnHidden | generic/tko/tkoWidget.c:3207-3230 | the written and corrected versions agree on flags that are hidden |
| TkoWidget.ClassHide | generic/tko/tkoWidget.c:627-671 | definitions of 1 to 4 elements become hidden, keeping their name and readonly flag; longer ones are left alone |
| TkoWidget.ClassShowAsWritten | generic/tko/tkoWidget.c:727-762 | as written, only 2-element definitions are rewritten, and then are shown |
| TkoWidget.ClassShowLeavesFullDefinitionHidden | generic/tko/tkoWidget.c:747-753 | a hidden 4-element definition stays hidden |
| TkoWidget.ClassShow | generic/tko/tkoWidget.c:727-762 | 2- and 4-element definitions become shown, keeping their length, name and readonly flag; definitions left alone were not hidden |
| TkoWidget.ClassShowAgreesOnShortHidden | generic/tko/tkoWidget.c:727-762 | the written and corrected versions agree on every definition that is not of length 4 |
| TkoWidget.ClassListedSplits | generic/tko/tkoWidget.c:591-623 | a definition is listed as hidden or as shown, never both |
| TkoWidget.ClassListingMembers | generic/tko/tkoWidget.c:591-623 | the listing holds exactly the names whose definitions are listed |
| TkoWidget.ClassListOptions | generic/tko/tkoWidget.c:591-623 | the loop builds that listing |
| TkoWidget.ClassHideShowListed | generic/tko/tkoWidget.c:571-770 | after hide a definition is listed as hidden; after show it is listed as shown |
| TkoWidget.AddChecks | generic/tko/tkoWidget.c:2222-2247 | an option is refused exactly when its name lacks "-", a synonym's target lacks "-" or is just "-", or its flags are malformed; only an "r" flag makes the option readonly |
| TkoWidget.InitialValue | generic/tko/tkoWidget.c:2309-2348 | an explicit value wins, then the database, then the default, then "" |
| TkoWidget.InitialStep | generic/tko/tkoWidget.c:2309-2348 | the method computes that initial value |
| TkoWidget.AddedOption | generic/tko/tkoWidget.c:2253-2390 | the stored entry keeps the names and flags; a synonym has no default and is not readonly |
| TkoWidget.NormalEntry | generic/tko/tkoWidget.c:2309-2404 | an option is added exactly when setting the variable, and the init call where one is made, succeed; the array variable is set whenever setting it succeeded |
| TkoWidget.Resolve | generic/tko/tkoWidget.c:2418-2468 | resolution succeeds exactly for a shown option or a synonym whose target is a real option |
| TkoWidget.SynonymOfSynonymFails | generic/tko/tkoWidget.c:2418-2468 | a synonym of a synonym is an error |
| TkoWidget.WithHideStep | generic/tko/tkoWidget.c:896-908 | hiding one more name updates just that entry |
| TkoWidget.WithHideAt | generic/tko/tkoWidget.c:896-908 | named options get the hidden bit; others are unchanged |
| TkoWidget.WithHidden | generic/tko/tkoWidget.c:882-894 | the listing holds only options with the requested hidden state |
| TkoWidget.WithHiddenDistinct | generic/tko/tkoWidget.c:882-894 | a repeat-free iteration order lists each option once |
| TkoWidget.WithHiddenMembers | generic/tko/tkoWidget.c:882-894 | the listing holds exactly those options |
| TkoWidget.Describe | generic/tko/tkoWidget.c:2042-2064 | an option is described by five fields, a synonym by two, starting with its name |
| TkoWidget.Widget.constructor | generic/tko/tkoWidget.c:1500-1508 | a new widget has no options |
| TkoWidget.Widget.OptionAdd | generic/tko/tkoWidget.c:2195-2405 | refused options change nothing; an accepted one is stored with its initial value; on failure the entry is removed but the array variable keeps what was set |
| TkoWidget.Widget.OptionGet | generic/tko/tkoWidget.c:2418-2468 | a value is returned exactly when the name resolves, and it is the target's value |
| TkoWidget.Widget.OptionSet | generic/tko/tkoWidget.c:2480-2645 | setting succeeds exactly when the name resolves, the option is not readonly and the `-option` method succeeds; the array entry is written first; a readonly option keeps its value and the written entry stays; a failing method restores the entry to the stored value; on success the option takes the value the method left in the array and is marked user supplied; a missing, unknown, hidden or unresolvable name changes nothing |
| TkoWidget.Widget.SetHidden | generic/tko/tkoWidget.c:896-908 | names are processed up to the first unknown one, which is reported; the processed ones get the bit |
| TkoWidget.Widget.SetHiddenBit | generic/tko/tkoWidget.c:896-908 | only the named option's hidden bit changes |
| TkoWidget.Widget.ListHidden | generic/tko/tkoWidget.c:882-894 | the list holds exactly the options with the requested hidden state, in table order, each once |
| TkoWidget.Widget.ConfigureList | generic/tko/tkoWidget.c:2042-2064 | every shown option is described exactly once, in table order before sorting; hidden ones are skipped |
| TkoFrame.LabelOf | generic/tko/tkoFrame.c:1130-1133 | a label window wins over text; there is no label exactly when neither is set |
| TkoFrame.ContainmentError | generic/tko/tkoFrame.c:665-672 | a frame cannot be both a container and use another window |
| TkoFrame.ClampNonNegative | generic/tko/tkoFrame.c:832-840 | negative values become 0; others are kept |
| TkoFrame.LabelRequest | generic/tko/tkoFrame.c:1164-1197 | the label is at least as large as its content and, across the border side, at least the border width |
| TkoFrame.BorderSides | generic/tko/tkoFrame.c:1204-1236 | sides without the label get border, highlight and padding; the label side gets the label size instead of the border |
| TkoFrame.BorderAtLeastPlain | generic/tko/tkoFrame.c:1204-1236 | the label side is at least as thick as a plain side |
| TkoFrame.MinimumRequest | generic/tko/tkoFrame.c:1244-1262 | the minimum size holds the label plus the padding on both sides |
| TkoFrame.Available | generic/tko/tkoFrame.c:1314-1343 | the space for the label is at least 1 and is the window minus padding where that fits |
| TkoFrame.LabelBoxSize | generic/tko/tkoFrame.c:1314-1343 | the label box is the request, cut to the available space |
| TkoFrame.LabelBoxInside | generic/tko/tkoFrame.c:1314-1416 | the placed label box lies within the window along its side |
| TkoFrame.TextAtBoxWhenFits | generic/tko/tkoFrame.c:1351-1416 | when the request fits, the text is placed where the box is |
| TkoFrame.TilesCover | generic/tko/tkoFrame.c:1944-1956 | the tiles start at the start, end at the end, are at most one image long and follow each other without gaps |
| TkoFrame.TilesSum | generic/tko/tkoFrame.c:1944-1956 | the tiles cover exactly the interior |
| TkoFrame.ColumnDrawsAt | generic/tko/tkoFrame.c:1947-1955 | a column draws one tile per row at the column's position |
| TkoFrame.GridSplit | generic/tko/tkoFrame.c:1944-1956 | the grid of draws is the columns in order |
| TkoFrame.Centred | generic/tko/tkoFrame.c:1964-1982 | the centred copy is the image cut to the interior |
| TkoFrame.CentredInside | generic/tko/tkoFrame.c:1964-1982 | the copy lies inside both the interior and the image, and is centred |
| TkoFrame.EmptyImageTilesForever | generic/tko/tkoFrame.c:1944-1956 | as written, a zero image width never ends the tiling loop |
| TkoFrame.TilesAsWrittenAgrees | generic/tko/tkoFrame.c:1944-1956 | for a positive image size the written loop gives the modelled tiles |
| TkoFrame.DrawColumn | generic/tko/tkoFrame.c:1947-1955 | the loop draws that column |
| TkoFrame.DrawTiled | generic/tko/tkoFrame.c:1921-1984 | an empty image draws nothing; otherwise the interior is tiled with the image |
| TkoFrame.DrawColumns | generic/tko/tkoFrame.c:1944-1956 | the loops draw the whole grid |
| TkoFrame.Frame.constructor | generic/tko/tkoFrame.c:570-710 | a new frame has no label, no redraw pending, no focus and zero sizes; a toplevel starts with a 200×200 geometry request, other frames with none |
| TkoFrame.Frame.ScheduleRedraw | generic/tko/tkoFrame.c:1268-1273 | a redraw is queued once; a pending one is not queued again |
| TkoFrame.Frame.Display | generic/tko/tkoFrame.c:1431-1444 | displaying clears the pending redraw |
| TkoFrame.Frame.BgImageChanged | generic/tko/tkoFrame.c:1891-1901 | a mapped frame schedules a redraw; an unmapped one is unchanged |
| TkoFrame.Frame.ComputeGeometry | generic/tko/tkoFrame.c:1291-1417 | a labelframe with a label gets a box cut to the available space and placed by the anchor; other frames keep theirs |
| TkoFrame.Frame.WorldChanged | generic/tko/tkoFrame.c:1114-1274 | the label request, borders and size requests are recomputed and a redraw is scheduled |
| TkoFrame.Frame.Relayout | generic/tko/tkoFrame.c:1114-1266 | the label request, borders and size requests are recomputed |
| TkoFrame.Frame.ComputeLabelAndBorder | generic/tko/tkoFrame.c:1130-1236 | the label request and internal border follow the current options |
| TkoFrame.Frame.ComputeRequests | generic/tko/tkoFrame.c:1244-1266 | a labelframe requests its minimum size; an explicit width or height becomes the geometry request |
| TkoFrame.Frame.Configure | generic/tko/tkoFrame.c:806-842 | negative highlight and padding are clamped to 0; then the label request, internal border, minimum and geometry requests and label geometry are recomputed as by WorldChanged; a mapped frame schedules a redraw, an unmapped one keeps its redraw state |
| TkoFrame.Frame.HandleEvent | generic/tko/tkoFrame.c:1651-1690 | focus events set or clear focus, ignoring inferior ones, and no other event touches it; exposes, configures and focus changes with a highlight schedule a redraw, all other events keep the redraw state; a configure event places the label of a labelframe as ComputeGeometry does, and no other event moves it |
| TkoFrame.Frame.Destroy | generic/tko/tkoFrame.c:713-760 | the flags are cleared and no redraw remains queued |
| UnixButton.HexDigit | unix/tkUnixButton.c:218-229 | the character's hex value is the digit |
| UnixButton.HexByte | unix/tkUnixButton.c:218-229 | two hex digits whose value is the byte |
| UnixButton.ColorToStr | unix/tkUnixButton.c:218-229 | the result is a six-digit colour string |
| UnixButton.ColorToStrBytes | unix/tkUnixButton.c:218-229 | the string holds the high byte of each 16-bit channel |
| UnixButton.ColorToStrIff | unix/tkUnixButton.c:218-229 | two colours give the same string exactly when their high bytes agree |
| UnixButton.Find | unix/tkUnixButton.c:381-401 | the first occurrence of the pattern from a position, or none |
| UnixButton.NoOverlap | unix/tkUnixButton.c:381-401 | two occurrences of a placeholder do not overlap |
| UnixButton.PlaceholdersDisjoint | unix/tkUnixButton.c:381-401 | the four placeholders are six characters long and do not occur inside each other |
| UnixButton.ReplaceStep | unix/tkUnixButton.c:381-401 | one replacement moves to the next occurrence and keeps the substitution invariants |
| UnixButton.Paste | unix/tkUnixButton.c:381-401 | six colour characters are written at the occurrence and nothing else changes |
| UnixButton.ReplaceAll | unix/tkUnixButton.c:381-401 | every occurrence is replaced by the colour and none is left |
| UnixButton.FourReplacements | unix/tkUnixButton.c:381-401 | replacing the four placeholders in turn gives the colourized image |
| UnixButton.Colorize | unix/tkUnixButton.c:381-401 | the image data afterwards are the template with each placeholder replaced by its colour |
| UnixButton.StyleOf | unix/tkUnixButton.c:293-318 | menus get the small indicator, buttons the large one with border and interior; the off template is used exactly when the indicator is off |
| UnixButton.UnknownModeIsCheck | unix/tkUnixButton.c:293-318 | unknown modes draw as a check button |
| UnixButton.PaletteOf | unix/tkUnixButton.c:324-348 | the colours are colour strings; the shadow colours are the given ones, or black and white when missing; an indeterminate or disabled indicator uses the background inside and the disable colour (or the background) for the mark; otherwise the select colour (or the background) inside and the indicator colour |
| UnixButton.Snprintf | unix/tkUnixButton.c:356-360 | the output is a prefix of the text shorter than the buffer, and the whole text when it fits |
| UnixButton.NameLayout | unix/tkUnixButton.c:356-360 | the name is 44 characters with the colours at fixed positions |
| UnixButton.NameFields | unix/tkUnixButton.c:356-360 | the name spells the mode and the colours that matter |
| UnixButton.NameDeterminesImage | unix/tkUnixButton.c:356-360 | equal names mean the same mode, the same template, and equal border, interior and indicator colours where the template uses them |
| UnixButton.NameIgnoresLight | unix/tkUnixButton.c:356-360 | as written, two palettes that differ only in the light colour get the same name, while the images colourised from a template holding LIGHTT differ |
| UnixButton.FullNameLayout | unix/tkUnixButton.c:356-360 | the corrected name is 51 characters with the four colours at fixed positions |
| UnixButton.FullNameFields | unix/tkUnixButton.c:356-360 | the corrected name fits its buffer and spells the mode and every colour the template uses |
| UnixButton.FullNameDeterminesImage | unix/tkUnixButton.c:356-401 | equal corrected names mean the same template and equal colours for every placeholder it uses, the light colour included |
| UnixButton.DrawCheckIndicator | unix/tkUnixButton.c:243-444 | no indicator colour draws nothing; otherwise the image name (with the light colour, see Findings) is computed and, unless cached, the template is colourised with the palette |
| UnixButton.DisplayRelief | unix/tkUnixButton.c:596-603 | a toggle without indicator is sunken when selected, keeps its relief while it equals the over-relief, and uses the off relief otherwise; other buttons use their relief |
| UnixButton.ToggleReliefTable | unix/tkUnixButton.c:596-603 | selected is sunken, then raised under the pointer, otherwise flat |
| UnixButton.AxisShift | unix/tkUnixButton.c:488-526 | the shift is 0 to 2 pixels, 1 for ridge, and more when sunken |
| UnixButton.ShiftRoundsUp | unix/tkUnixButton.c:488-526 | the shift moves half the leftover space, rounded up, and one more pixel when sunken |
| UnixButton.Clip | unix/tkUnixButton.c:706-723 | the span is cut to the limit and stays within it |
| UnixButton.ClipKeepsFitting | unix/tkUnixButton.c:706-723 | a span that fits is unchanged |
| UnixButton.ClipIdempotent | unix/tkUnixButton.c:706-723 | clipping twice is clipping once |
| UnixButton.CompoundSize | unix/tkUnixButton.c:1033-1081 | the compound covers image and text, stacked or side by side as the compound option says |
| UnixButton.DiameterPercent | unix/tkUnixButton.c:1074-1076 | the indicator is 65% (check) or 75% (radio) of the height, rounded down |
| UnixButton.GeometryFacts | unix/tkUnixButton.c:980-1134 | the inset counts the highlight, the border and, unless the default state is disabled, the default ring; an indicator exists exactly for toggles that show one, one line high beside a digit for text and no higher than the request (with the 65 or 75 percent diameter of its height) for an image |
| UnixButton.PaddingAdds | unix/tkUnixButton.c:1033-1125 | against the same button without padding, text alone and image with text gain 2·padX across and 2·padY down, a compound gains padX or padY between its parts unless -width or -height overrides that size, and an image or bitmap alone is not padded |
| UnixButton.LayCompound | unix/tkUnixButton.c:1033-1081 | the branch's step-by-step updates end with CompoundLayout: the combined size, replaced by a positive -width or -height, the indicator as high as that content, then 2·padX and 2·padY added |
| UnixButton.LayImage | unix/tkUnixButton.c:1083-1098 | the branch's updates end with ImageLayout: the image size, replaced by a positive -width or -height, with the indicator as high as the content and no padding |
| UnixButton.LayText | unix/tkUnixButton.c:1100-1125 | the branch's updates end with TextLayout: the text size, or -width digits and -height lines, padded by 2·padX and 2·padY, with a one-line indicator beside a digit |
| UnixButton.Button.constructor | unix/tkUnixButton.c:980-995 | a new button has zero geometry |
| UnixButton.Button.ComputeGeometry | unix/tkUnixButton.c:980-1134 | the button's fields afterwards are the computed geometry |
| UnixButton.Button.ShiftByOffset | unix/tkUnixButton.c:488-526 | shifting moves the content by at most 2 pixels on each axis, and only for reliefs that shift |

## Left out

- Core Graphics, AppKit and NSImage drawing. The colour of `TkMacOSXRGBPixel` is kept abstract: the model returns the red, green and blue triple.
- The byte table `xBitReverseTable` is modelled as bit reversal.
- Big-endian hosts. The model follows the little-endian byte order.
- The 700-entry named-colour table is a parameter. `GetSysColor` is represented by the system-colour index.
- WinGdiColor.ParseHex does not model `sscanf`'s leniency inside a hex field (white space, signs, `0x`).
- Floating-point code is not modelled: Bézier curves, arcs, arrows, scaling, the dimming factor at unix/tkUnixButton.c:428-441, and `-scale` in the copy command.
- Parts of the Tcl interpreter are parameters:
  - hash and dict iteration order (a parameter `order`);
  - the database and `Tk_GetOption` lookups, system defaults and `-option` method results (the environment parameter);
  - image creation through `Tcl_EvalEx` (the `cached` parameter).
- Naming a new device context (`Hdc_build_name`): the name is a parameter.
- Windows constants are taken from wingdi.h and winuser.h.
- The difference between NSString length and UTF-8 bytes. NUL characters inside strings are not modelled.
- WinGdi.Atoi: results beyond the C `int` range, which are undefined in C, are not modelled.
- The X drawing calls themselves. Only their arguments are modelled.
- Other tko commands (`optiondel`, `optiondef`, `optionget` and `configure` of a single option). These are not part of this model.
- Frame menus and the management of the label window.
- TkoWidget.Widget.ConfigureList: returns the listing in table order; the final `lsort` (generic/tko/tkoWidget.c:2059-2062) is not modelled, because it compares Tcl's string forms of the entries.
- TkoWidget.Widget.OptionSet: that the array keeps a value refused by the write trace follows Tcl's documented handling of a failing write trace; Tcl itself is not part of this model.
- WinGdi.DIBLength: ignores a `biClrUsed` returned by `GetDIBits` and the 32-bit wrap of `dwLen` (win/tkWinGDI.c:4441).

## Findings

| source | as written | input that shows it | evidently intended | confidence | as-written member | corrected member |
|---|---|---|---|---|---|---|
| win/tkWinGDI.c:3983-3999 | the binary search starts with the upper bound equal to the table size and probes `(l+u)/2` while `l <= u` | "systemZz": 26 system colours; the probe reaches index 26 | the upper bound is the last index | not executed | WinGdiColor.SystemSearchReadsPastEnd | WinGdiColor.Search |
| macosx/tkMacOSXFileTypes.c:32-35 | `CHARS_TO_OSTYPE` shifts plain `char`s, which sign-extend | bytes 00 80 00 00 and ff 80 00 00 give the same OSType | shift unsigned bytes | not executed | MacFileTypes.AsWrittenCollides | MacFileTypes.CharsToOSTypeInjective |
| macosx/tkMacOSXFileTypes.c:83 | the OSType step is also taken when neither lookup found a type, whatever the string's length, and then reads four bytes | an empty file type, whose C string is one byte | read four bytes only when the C string has them (three bytes or more before the terminator) | not executed | MacFileTypes.OSTypeStepReadsPastShortString | MacFileTypes.IconLookupOrder |
| macosx/tkMacOSXImage.c:688-696 | the size check multiplies in 32 bits | width 16384, height 65537, 65536 bytes per row | compare without wrap-around | not executed | MacImage.RecognizedAsWrittenAdmitsOverrun | MacImage.GetImage |
| generic/tko/tkoWidget.c:3207-3230 | unsetting hidden on a flag string without "h" returns "" | flags "r" | keep the other flags | not executed | TkoWidget.HideUnsetDropsReadonly | TkoWidget.HideUnset |
| generic/tko/tkoWidget.c:747-753 | class `optionshow` skips every 4-element definition | a hidden definition with a class and a default | show 4-element definitions too | not executed | TkoWidget.ClassShowLeavesFullDefinitionHidden | TkoWidget.ClassShow |
| generic/tko/tkoFrame.c:1944-1956 | the tiling loops step by the image size | a tiled background image of width 0 | draw nothing for an empty image | not executed | TkoFrame.EmptyImageTilesForever | TkoFrame.DrawTiled |
| win/tkWinGDI.c:593-601 | the height is computed as `ny*dst_w/nx` | an empty photo with `-destination "0 0 10"` | keep the photo height when the width is 0 | not executed | WinGdiDraw.PhotoDestDividesByZero | WinGdiDraw.PhotoDestSize |
| unix/tkUnixButton.c:356-360 | the cached image's name leaves out the light shadow colour, which the check and radio button templates paint over LIGHTT | two buttons whose palettes differ only in the light colour | name the light colour too | not executed | UnixButton.NameIgnoresLight | UnixButton.FullNameDeterminesImage |
| win/tkWinGDI.c:4064-4076 | the X-colour search also starts with the upper bound equal to the table size | a name above every X colour name, such as "zzz" on a table whose names all sort below it | the upper bound is the last index | not executed | WinGdiColor.AsWrittenProbesPastEnd | WinGdiColor.ParseColor |
