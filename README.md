# JIP variable value codec, in Dafny

This project models two CGI programs that read and write the typed
variables of JIP (JenNet-IP) devices:

- the generic network browser, `Browser_cgi.c`;
- the Smart Devices control page, `Smart_Devices_cgi.c`.

Both sides of the browser's codec are modelled, and the properties are proved about the model.

- **Encoder.** A form value (text) plus the variable's type gives the buffer and size passed to `eJIP_SetVar` or `eJIP_MulticastSetVar`.
- **Decoder.** The bytes a read returns give the text put into the page (`acCurrentValue`).

From the Smart Devices program, the model covers:

- its own encoding switch for an update;
- the multicast test on the update address;
- the configuration reader `processNode`, a state machine over the XML nodes of the configuration file;
- the Individual Control page: a device lookup for each network node, and the label made from its DescriptiveName variable.

Modules:

- `JipTypes` (jip_types.dfy): the variable types, byte values, table rows, read outcomes and encoded buffers. Byte order is little-endian.
- `CNumber` (c_number.dfy) models parts of the C library:
  - `strtoul`/`strtoull`/`strtol`/`strtoll`, with glibc's saturation and ERANGE (`long` is 32 bits, `long long` 64);
  - the implicit truncating conversions to narrower unsigned types;
  - the `%u`, `%d`, `%llx` and `%03d` formats, and lemmas that parse back what they print.
- `Hex` (hex.dfy): the nibble classification of the Blob packer and `%02x`.
- `CStrings` (c_strings.dfy): `sprintf` at an offset into a `char` array, and `realloc`.
- `Transmit` (transmit.dfy): the transmit call, as a sink that records what it is handed.
- `BrowserEncoder`, `BrowserDecoder`: the two switches of the browser. The Blob packer and the table renderer work in place on arrays, as the C code does.
- `SmartEncoder`: the Smart Devices encoding switch, the multicast test and the DescriptiveName label.
- `DeviceConfig`: `processNode` as a pure step function on a `Config` value, plus a `ConfigReader` class whose fields are the statics and globals the C function updates.
- `DeviceLookup`: the lookup loop and the Individual Control loop.
- `CodecProperties`: the round trips and how the two encoders differ.

Where the code does not do what its purpose suggests, the model follows the code:

- **An integer that does not fit its type is accepted.** An INT8 given "300" is stored as 44. `strtoul` only reports ERANGE above 2^32 - 1, and the store truncates (`CodecProperties.Int8Overflow`).
- **Text with no digits is not rejected.** It reads as 0 (`CodecProperties.UnprefixedHexIsNotRead`).
- **Only a lowercase `0x` is skipped before Blob digits.** `0X12` is rejected (`BrowserEncoder.UppercasePrefixRejected`).
- **A failed table `realloc` keeps what was printed.** The text printed so far is kept, up to and including the row being printed. It is a prefix of the full table (`CodecProperties.PartialTableIsPrefix`), not an all-or-nothing failure.
  - The buffer grows to the current position plus 255 after each row, not by doubling.
- **Table rows carry markup.** Each row is printed inside its `<P style="margin-left: 50px; ">` markup with a `%03d` index.
- **A String is not shown exactly as its bytes.** It is shown up to its first zero byte, followed by a newline (`CodecProperties.StringDisplay`).
- **The Smart Devices encoder reads every integer with `strtol`/`strtoll`** and never checks `errno`. A 4-byte integer (UINT32 or INT32) given a decimal from 2^31 to 2^32 - 1 is saturated to 0x7FFFFFFF, where the browser stores the value as typed (`CodecProperties.UnsignedEncodersDiffer`).
- **Typed text comes back for values in range.** In the browser, the `%u` digits of any value below 2^(8w) are stored and shown as the same digits for the 8-, 16- and unsigned 32-bit types (`CodecProperties.UnsignedTextRoundTrip`). An INT32 in the signed 32-bit range comes back with its sign (`CodecProperties.SignedTextRoundTrip`), and a 64-bit value typed as `0x` and its hex digits comes back as those digits (`CodecProperties.HexTextRoundTrip`).
- **Negative INT8 and INT16 values do not come back.** "-1" is stored as 0xFF or 0xFFFF, and `%d` of the unsigned value shows "255" or "65535" (`CodecProperties.NegativeShortsDoNotRoundTrip`).

## Model

| member | source | states |
|---|---|---|
| JipTypes.ValueOfLittleEndian | Source/Browser_cgi.c:269-278 | the bytes `memcpy` stores for a value below 2^(8w) read back as that value |
| JipTypes.ValueOfBound | Source/Browser_cgi.c:728-736 | the bytes of a `uintN_t` hold a value below 2^N |
| Hex.NibbleOf | Source/Browser_cgi.c:336-354 | a character has a nibble exactly when it is a hex digit in either case; digits map to 0-9, letters to 10-15 |
| Hex.BytesHexLength | Source/Browser_cgi.c:746-749 | `%02x` of n bytes is 2n characters |
| Hex.BytesHexAt | Source/Browser_cgi.c:746-749 | byte k becomes characters 2k and 2k+1, high nibble first |
| Hex.BytesHexAppend | Source/Browser_cgi.c:746-749 | one more byte adds its two digits at the end |
| Hex.BytesHexIsLowercase | Source/Browser_cgi.c:748 | every rendered character is a lowercase hex digit |
| CNumber.UnsignedOf | Source/Browser_cgi.c:241-247 | `strtoul` result below 2^N; ERANGE exactly when the magnitude reaches 2^N; an in-range unsigned literal is its own value |
| CNumber.SignedOf | Source/Smart_Devices_cgi.c:872 | `strtol` result within the signed range; without ERANGE it is the signed literal |
| CNumber.Truncate | Source/Browser_cgi.c:242 | conversion to an N-bit unsigned type lands below 2^N and keeps values already in range |
| CNumber.ToSigned | Source/Browser_cgi.c:733 | `%d` of a `uint32_t` is a value in the signed range that converts back to the same bits |
| CNumber.ParseDecimal | Source/Browser_cgi.c:271 | `strtoul` reads the `%u` digits of any value below 2^N back as that value, without ERANGE |
| CNumber.ParseSignedDecimal | Source/Browser_cgi.c:733 | `strtoul` reads `%d` of x back as x modulo 2^N |
| CNumber.ParseNegativeDecimal | Source/Browser_cgi.c:733 | `strtoul` reads `%d` of a negative x back as 2^N + x, without ERANGE |
| CNumber.ToSignedOfTruncate | Source/Browser_cgi.c:733 | a value in the signed N-bit range, reduced modulo 2^N and read as signed again, is itself |
| CNumber.ParseHex | Source/Browser_cgi.c:735-736 | `strtoull` reads `0x` and the `%llx` digits back as the value |
| CNumber.ZeroPad3Value | Source/Browser_cgi.c:772 | `%03d` pads with zeros only: at least 3 characters whose digits read as the row number |
| CNumber.NatTextLength | Source/Browser_cgi.c:728-736 | a value below 2^k prints in at most k digits |
| CNumber.DigitsValueNatText | Source/Browser_cgi.c:728-736 | the printed digits denote the printed value |
| CStrings.StrLen | Source/Browser_cgi.c:318 | `strlen`: at most the length of the text, no NUL before it, and a NUL at it when it falls short of the whole text |
| CStrings.Sprintf | Source/Browser_cgi.c:745 | `sprintf` at an offset writes the text and a NUL and returns its length; what came before is unchanged |
| CStrings.Realloc | Source/Browser_cgi.c:785-792 | `realloc` either fails and returns the old block, or returns a fresh block of the new size holding the old contents |
| Transmit.Sink.Send | Source/Browser_cgi.c:412-430 | each call records one buffer and size handed to the transmit call |
| BrowserEncoder.PackBlob | Source/Browser_cgi.c:323-379 | the in-place packer over a `strlen`-sized buffer succeeds exactly when every digit after an optional lowercase `0x` and before the first NUL is hex; the bytes are `Pack` of those digits; the size is half the digit count rounded up, at most `strlen` of the text |
| BrowserEncoder.PackDigits | Source/Browser_cgi.c:333-366 | the nibble loop over a zeroed buffer succeeds exactly when every digit is hex, and then counts every digit and leaves packed byte k in `buf[k]` |
| BrowserEncoder.Encode | Source/Browser_cgi.c:236-383 | the switch, with the in-place packer, yields exactly the specified `Encoding` |
| BrowserEncoder.Update | Source/Browser_cgi.c:236-441 | a supported value is sent once on the chosen path; nothing is sent otherwise; the buffer is freed unless the value is a String, or an integer rejected by the early return; a buffer is leaked exactly when that early return rejects an INT8 or UINT8, the only types that allocate before `strtoul` |
| BrowserEncoder.IntegerEncoding | Source/Browser_cgi.c:238-296 | an integer is rejected exactly on ERANGE; otherwise Width(t) owned bytes of size 0 that read back as the parsed value modulo 2^(8 Width(t)) |
| BrowserEncoder.PackLayout | Source/Browser_cgi.c:356-376 | packed byte k has digit 2k as high nibble and digit 2k+1, or 0 past the end, as low nibble; the length is half the digit count rounded up |
| BrowserEncoder.BlobEncoding | Source/Browser_cgi.c:323-379 | a Blob is sent exactly when all its digits before the first NUL are hex; otherwise it fails as non-hex; the size equals the packed length and never exceeds `strlen` of the text |
| BrowserEncoder.EmbeddedNulEndsBlob | Source/Browser_cgi.c:326-333 | "A", NUL, "B" is sent as the one byte 0xA0 with size 1: the packer stops at the NUL |
| BrowserEncoder.UppercasePrefixRejected | Source/Browser_cgi.c:328-331 | `0X12` is not accepted as a Blob |
| BrowserEncoder.StringEncoding | Source/Browser_cgi.c:314-321 | a String is sent as the form text itself, with its `strlen` as the size (the whole text when it holds no NUL), and is not freed |
| BrowserEncoder.EncodingOwnership | Source/Browser_cgi.c:314-383 | only TableBlob and unknown types are unsupported; every sent buffer but a String's is freeable |
| BrowserDecoder.CString | Source/Browser_cgi.c:739-741 | `%s` of the data: the bytes before the first zero byte, none of them NUL |
| BrowserDecoder.RenderScalar | Source/Browser_cgi.c:728-736 | the integer `sprintf` leaves the shown text and a newline in the block, NUL-terminated |
| BrowserDecoder.Shown | Source/Browser_cgi.c:787-791 | the printed rows are at most all rows |
| BrowserDecoder.WriteHex | Source/Browser_cgi.c:746-749 | the `%02x` loop appends the hex of the bytes after what was there, NUL-terminated, 2n characters |
| BrowserDecoder.WriteFramed | Source/Browser_cgi.c:772-777 | a row with data appends its opening, its hex and its closing |
| BrowserDecoder.WriteRow | Source/Browser_cgi.c:768-782 | one row's `sprintf` calls append exactly that row's line |
| BrowserDecoder.PrintRow | Source/Browser_cgi.c:766-792 | a row is appended, then the block is either resized to the new position plus 255 with its contents kept, or left as it was when `realloc` fails |
| BrowserDecoder.RenderRows | Source/Browser_cgi.c:760-794 | the row loop leaves the lines of every row, or of the rows up to and including the one whose `realloc` failed; `complete` is false exactly then |
| BrowserDecoder.RenderTable | Source/Browser_cgi.c:752-800 | the table case leaves `TableText`: "Empty table" for no rows, otherwise the printed rows |
| BrowserDecoder.RenderBlob | Source/Browser_cgi.c:742-751 | the Blob case leaves `0x` and the hex of its bytes |
| BrowserDecoder.DecodeVar | Source/Browser_cgi.c:719-813 | the block holds `Display` of the read outcome, NUL-terminated, and is incomplete exactly when a table's `realloc` fails |
| BrowserDecoder.TableTextShown | Source/Browser_cgi.c:785-791 | after a failing `realloc` at row k, exactly k + 1 rows are printed; otherwise all are |
| BrowserDecoder.ScalarTextLength | Source/Browser_cgi.c:728-736 | every scalar format fits in 64 characters, so inside the 255-character block |
| BrowserDecoder.SignedTextLength | Source/Browser_cgi.c:733 | `%d` of a 32-bit value prints at most 33 characters |
| SmartEncoder.MulticastPrefix | Source/Smart_Devices_cgi.c:837-840 | the two `strncmp` calls flag an address as multicast exactly when it starts with `FF` or `ff` |
| SmartEncoder.MulticastExamples | Source/Smart_Devices_cgi.c:837-840 | `FF02::1` and `ff05::2` are multicast; `Ff02::1`, `fe80::1` and `F` are not |
| SmartEncoder.Update | Source/Smart_Devices_cgi.c:934-987 | a supported value is sent once, on the multicast path exactly for a multicast address; the buffer is freed unless the value is a String |
| SmartEncoder.IntegerEncoding | Source/Smart_Devices_cgi.c:869-903 | integers are never rejected; the stored bytes hold the `strtol` value modulo 2^(8 Width(t)), saturated or not |
| SmartEncoder.StringAndUnsupported | Source/Smart_Devices_cgi.c:921-931 | Blob, TableBlob and unknown types are unsupported; a String is borrowed with its `strlen` as the size (the whole text when it holds no NUL); every other buffer is freeable |
| SmartEncoder.DescriptiveLabelAgrees | Source/Smart_Devices_cgi.c:1192-1205 | the label equals the browser's text for a String or a missing value, and is "Unknown Type" for any other type |
| DeviceConfig.Dispatch | Source/Smart_Devices_cgi.c:237-521 | the device section is only entered with a device recorded |
| DeviceConfig.Step | Source/Smart_Devices_cgi.c:193-524 | one node keeps the reader's invariant |
| DeviceConfig.Run | Source/Smart_Devices_cgi.c:563-569 | the whole file keeps the reader's invariant |
| DeviceConfig.StepExtends | Source/Smart_Devices_cgi.c:193-524 | one node keeps groups and scenes as a prefix, never removes a device, and keeps every device but the last |
| DeviceConfig.ConfigReader.constructor | Source/Smart_Devices_cgi.c:197-201 | the reader starts not valid, with no section and nothing recorded |
| DeviceConfig.ConfigReader.ProcessNode | Source/Smart_Devices_cgi.c:193-524 | the fields after one node are `Step` of the fields before |
| DeviceConfig.ConfigReader.CheckHeader | Source/Smart_Devices_cgi.c:205-235 | a header element with Version 1 sets the validity flag; nothing else changes |
| DeviceConfig.ConfigReader.DispatchNode | Source/Smart_Devices_cgi.c:237-338 | the rest of `processNode` gives `Dispatch` of the fields before |
| DeviceConfig.ConfigReader.AddDevice | Source/Smart_Devices_cgi.c:245-318 | the Device branch gives `DeviceElement` of the fields before |
| DeviceConfig.ConfigReader.FillDevice | Source/Smart_Devices_cgi.c:340-382 | a device-section child gives `DeviceChildElement` of the fields before |
| DeviceConfig.ConfigReader.GroupsChild | Source/Smart_Devices_cgi.c:384-464 | a Groups-section child gives `GroupsElement` of the fields before |
| DeviceConfig.ConfigReader.ScenesChild | Source/Smart_Devices_cgi.c:466-520 | a Scenes-section child gives `ScenesElement` of the fields before |
| DeviceConfig.ConfigReader.Load | Source/Smart_Devices_cgi.c:563-569 | the reading loop leaves `Run` of the fields before over all nodes |
| DeviceConfig.ValidityIsSticky | Source/Smart_Devices_cgi.c:205-235 | once valid, a file stays valid over any further nodes |
| DeviceConfig.IgnoredUntilValid | Source/Smart_Devices_cgi.c:237-241 | before a valid header every node leaves the state unchanged |
| DeviceConfig.DeviceAppended | Source/Smart_Devices_cgi.c:243-318 | a device is appended exactly when the file is valid, there are two attributes, an ID or BaseType is given, neither overflows, and a Name is present; the entry holds the truncated ID and base type, the lookup kind, and NULL elsewhere; the device section begins |
| DeviceConfig.HeaderOnlyValidates | Source/Smart_Devices_cgi.c:205-235 | the header check changes only the flag, sets it only on a header element, and never clears it |
| DeviceConfig.FillDeviceKeepsName | Source/Smart_Devices_cgi.c:340-382 | device children change only the most recent device, never its name, and only for the four child names |
| DeviceConfig.DispatchKeepsDevices | Source/Smart_Devices_cgi.c:237-382 | after the header check, a node other than Device changes only the last device's fields |
| DeviceConfig.OnlyLastDeviceChanges | Source/Smart_Devices_cgi.c:338-382 | a node other than Device keeps the device count and every device but the last; only a device child in the device section of a valid file changes the last device, never its name |
| DeviceConfig.GroupsElementAppends | Source/Smart_Devices_cgi.c:384-464 | Groups-section children append a group only for `Group` with Name and Address, and then always do |
| DeviceConfig.ScenesElementAppends | Source/Smart_Devices_cgi.c:466-520 | Scenes-section children append a scene only for `Scene` with 3-4 attributes and Name, Address and Value, and then always do |
| DeviceConfig.DispatchAppends | Source/Smart_Devices_cgi.c:237-520 | after the header check, groups and scenes only grow by those appends |
| DeviceConfig.GroupsAndScenesAppended | Source/Smart_Devices_cgi.c:384-520 | one node leaves groups and scenes as they were, or appends exactly one entry built from its attributes in the matching section of a valid file |
| DeviceConfig.SectionSwitch | Source/Smart_Devices_cgi.c:243-335 | in a valid file, `Groups` and `Scenes` without attributes switch to their section and change nothing else; for any node, the section changes only in a valid file and only for those two or for a `Device` element with two attributes |
| DeviceConfig.EarlierEntriesKept | Source/Smart_Devices_cgi.c:563-569 | over a whole file, recorded groups, scenes and every device but the last stay as they were |
| DeviceConfig.VersionOfDigit | Source/Smart_Devices_cgi.c:209-227 | a one-digit Version attribute is read as that digit |
| DeviceConfig.VersionExamples | Source/Smart_Devices_cgi.c:205-235 | Version "1" makes the file valid; Version "2" or no Version does not |
| DeviceLookup.LastMatch | Source/Smart_Devices_cgi.c:1152-1173 | the result is a matching device after which none matches, or None when none matches |
| DeviceLookup.FindDevice | Source/Smart_Devices_cgi.c:1152-1173 | the loop over all devices finds the last match, because the `break` leaves only the `switch` |
| DeviceLookup.PrintLabel | Source/Smart_Devices_cgi.c:1188-1205 | the label printed into the 255-character buffer is the DescriptiveName label |
| DeviceLookup.IndividualMenu | Source/Smart_Devices_cgi.c:1144-1212 | the loop produces `MenuEntries`: one entry per matched node with a DescriptiveName, in network order |
| DeviceLookup.BaseTypeIgnoresUpperBytes | Source/Smart_Devices_cgi.c:1163-1168 | a base-type lookup depends only on the low byte of the node's device ID |
| DeviceLookup.MenuEntriesAppend | Source/Smart_Devices_cgi.c:1144-1212 | the menu of concatenated node lists is the concatenation of their menus |
| DeviceLookup.MenuEntriesExactlyListed | Source/Smart_Devices_cgi.c:1175-1207 | every entry belongs to some listed node (one with a matching device and a DescriptiveName) and every listed node has its entry; there are no more entries than nodes |
| CodecProperties.LittleEndianValueOf | Source/Browser_cgi.c:728-736 | storing the value the bytes hold gives back the bytes |
| CodecProperties.ScalarRoundTrip | Source/Browser_cgi.c:729-734 | for the 8-, 16- and 32-bit types, the shown text encodes back into exactly the bytes it came from |
| CodecProperties.PrefixedHexRoundTrip | Source/Browser_cgi.c:735-736 | for the 64-bit types, `0x` followed by the shown hex encodes back into the same bytes |
| CodecProperties.UnsignedTextRoundTrip | Source/Browser_cgi.c:238-280 | for INT8, UINT8, INT16, UINT16 and UINT32, the `%u` digits of any value below 2^(8w) are stored as the value's own little-endian bytes, which are shown as the same digits |
| CodecProperties.UnsignedDecimalStored | Source/Browser_cgi.c:238-296 | the `%u` digits of a value below 2^(8w) are stored as that value's own bytes, with size 0 |
| CodecProperties.UnsignedShown | Source/Browser_cgi.c:729-734 | the bytes of a value below 2^(8w) are shown as its digits by every 8-, 16- and 32-bit format but INT32's |
| CodecProperties.SignedTextRoundTrip | Source/Browser_cgi.c:266-280 | an INT32 typed as the `%d` digits of a value in the signed 32-bit range is stored as that value modulo 2^32 and shown as the same digits, sign included |
| CodecProperties.SignedDecimalStored | Source/Browser_cgi.c:266-280 | the `%d` digits of a value in the signed 32-bit range are stored as that value modulo 2^32 |
| CodecProperties.HexTextRoundTrip | Source/Browser_cgi.c:282-296 | a 64-bit type given `0x` and the hex digits of a value is stored as the value's bytes and shown as those digits |
| CodecProperties.NegativeShortsDoNotRoundTrip | Source/Browser_cgi.c:238-263 | "-1" is stored as [0xFF] for an INT8 and shown as "255", and as [0xFF, 0xFF] for an INT16 and shown as "65535" |
| CodecProperties.UnprefixedHexIsNotRead | Source/Browser_cgi.c:282-296 | 255 shows as `ff`; typed back as it is shown, `ff` encodes as 0 |
| CodecProperties.DecimalTruncated | Source/Browser_cgi.c:238-280 | any decimal below 2^32 is accepted and stored modulo 2^(8w) |
| CodecProperties.Int8Overflow | Source/Browser_cgi.c:238-248 | "300" for an INT8 is stored as the byte 44 |
| CodecProperties.SignednessOfDisplay | Source/Browser_cgi.c:729-733 | INT8 255 shows as "255"; INT32 0xFFFFFFFF shows as "-1" |
| CodecProperties.UnsignedEncodersDiffer | Source/Smart_Devices_cgi.c:886-894 | a 4-byte integer (INT32 or UINT32) given a decimal from 2^31 to 2^32 - 1 is stored as typed by the browser and as the bytes FF FF FF 7F (0x7FFFFFFF) by Smart Devices |
| CodecProperties.BrowserKeepsUnsigned | Source/Browser_cgi.c:266-280 | the browser stores any 4-byte decimal below 2^32 as its own little-endian bytes |
| CodecProperties.SmartSaturates | Source/Smart_Devices_cgi.c:886-894 | Smart Devices stores any 4-byte decimal from 2^31 up as 0x7FFFFFFF, without reporting the overflow |
| CodecProperties.SaturatedDecimal | Source/Smart_Devices_cgi.c:889 | `strtol` of the digits of a value at or above 2^(N-1) saturates to 2^(N-1) - 1 with ERANGE |
| CodecProperties.EncodersAgreeBelowHalf | Source/Smart_Devices_cgi.c:869-894 | below 2^31 both encoders store the same bytes for the 8-, 16- and 32-bit types |
| CodecProperties.PackBytesHex | Source/Browser_cgi.c:323-379 | packing the `%02x` digits of bytes gives back the bytes |
| CodecProperties.BlobRoundTrip | Source/Browser_cgi.c:742-751 | a Blob shown in 2 + 2n characters encodes back into the same n bytes with size n |
| CodecProperties.BytesHexPack | Source/Browser_cgi.c:323-379 | an even number of lowercase hex digits, packed and shown again, is the same digits |
| CodecProperties.BlobExamples | Source/Browser_cgi.c:323-379 | "0xAB12" gives [0xAB, 0x12]; "ABC" gives [0xAB, 0xC0]; "12G4" is rejected |
| CodecProperties.BlobDisplayExample | Source/Browser_cgi.c:742-751 | [0xDE, 0xAD, 0xBE, 0xEF] shows as "0xdeadbeef" |
| CodecProperties.RowsTextPrefix | Source/Browser_cgi.c:763-793 | the lines of the first k rows are a prefix of the lines of all rows |
| CodecProperties.PartialTableIsPrefix | Source/Browser_cgi.c:752-800 | an empty table shows "Empty table"; after a `realloc` failure the text is a prefix of the full table, ending at the failing row |
| CodecProperties.TableExample | Source/Browser_cgi.c:768-782 | an empty row then a row [0x01, 0x02] show as row 000 `{ Empty Row }` and row 001 `{ 0x0102 }` |
| CodecProperties.StringDisplay | Source/Browser_cgi.c:739-741 | String bytes without a zero byte are shown one character each, followed by a newline |

## Left out

- HTML and JavaScript page assembly, CGI query parsing, JIP network discovery, persistence caches, `eJIP_Lock`/`eJIP_Unlock`, and the XML reader itself.
  - The XML reader is modelled as a sequence of nodes, each a name and an attribute map.
- The choice of which node, MiB and variable an update applies to: the lookups by address and name, including the Smart Devices rule "multicast or the same address". The encoders are given the variable's type and the multicast choice.
- `inet_pton` on a multicast address, and the early returns when it fails.
  - `inet_ntop`: a node's address is given as text.
- Floating point.
  - `strtof`/`strtod` are kept as the literal and the width (`FloatImage`).
  - `%f` is a caller-supplied `showFloat` function.
- The transmit call's own result ("Success"/"Error setting new value") and the `printf` diagnostics.
  - A table `realloc` failure is reported as `complete == false` in place of "Failed to print Table".
- Memory that is never freed:
  - the Browser encoder leaks its one-byte buffer when it rejects an INT8 or UINT8 on ERANGE (`leaked` in BrowserEncoder.Update); the wider integer types return before they allocate;
  - configuration strings are leaked when an element is skipped;
  - a replaced global group is leaked.
- Allocation failures other than the table `realloc`:
  - `malloc` of a value buffer;
  - the device, group and scene arrays. Their failing `realloc` leaves the count already incremented, a defect the model does not carry.
- Buffer overruns:
  - BrowserDecoder.DecodeVar: requires that a String, a float text, a Blob and each table row fit the 255-character block (`Fits`, `RowsFit`). The C code does not check this; overrunning it is undefined behaviour.
  - DeviceLookup.IndividualMenu: requires that each DescriptiveName label fits its 255-character buffer (`LabelsFit`), for the same reason.
- A String or DescriptiveName value without a terminating zero byte: `CString` stops at the end of the data. C would read past it.
- The values of `long` and `long long` are fixed at 32 and 64 bits, and host byte order is little-endian.
- BrowserEncoder.StringEncoding, SmartEncoder.StringAndUnsupported: each character of the form text stands for one byte of the C string. No character encoding is modelled, so a character above 255 counts as one byte, where UTF-8 would use several.
