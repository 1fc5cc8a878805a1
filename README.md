# CKEasyWifiConfig in Dafny

CKEasyWifiConfig wraps the Digilent WiFi library for chipKIT boards. An object is built in one of three ways:

- with the `WF_Config.x` profile of the vendor library;
- with a caller-supplied `SECINFO` record and SSID;
- with the name of a configuration file on the SD card.

`Setup()` then does the following:

1. For the SD kind, it loads the file. Lines are read one at a time into a 100-character buffer. Comments and lines without a separator are skipped. The name of each `NAME:VALUE` line is upper-cased, and the six directives act on the fields: `SECURITY`, `IP`, `SSID`, `KEY`, `KEYCHAR` and `KEYINDEX`. Reading stops after the fourth directive.
2. It connects with the `DWIFIcK::connect` overload that the security type selects.
3. On a valid connection id, it starts the IP stack with DHCP or with the static address.
4. It reports whether the stack came up within the 40000 ms timeout.

This project models that code and proves properties of the model.

Modules:

- `CStrings` (`cstrings.dfy`): the C library calls the loader uses, as functions on sequences of octets. These are the NUL-terminated view of a buffer, `toupper`, `strchr`, `strtok` and `strtoul`. `strtoul` follows the C library of the 32-bit target: it skips white space and a sign, saturates at `ULONG_MAX` = 2^32 - 1, and negates modulo 2^32. The partners of these calls are `Decimal`, `Join` and `HexEncode`, which spell values so that the round-trip lemmas can read them back.
- `SdFiles` (`sdfiles.dfy`): an open SD file as a class (its contents and a read cursor), and the method `ReadLine` over a 100-element `array`. `ReadLine` is proved against `ScanLine`, the closed-form statement of one call. `Lines` is the sequence of lines that successive calls deliver, and `CrLfFile` writes lines back as a file with CR LF line ends, which `Lines` reads back unchanged.
- `Directives` (`directives.dfy`):
  - `ParseLine`, how one line is classified;
  - `DirectiveOf`, the directive a line carries;
  - `ApplyDirective`, what that directive does to the `Settings` record;
  - `DirectiveFault`, where the source's behaviour is undefined;
  - a lemma for each directive, with round trips for `IP`, `KEY` and `KEYINDEX`.
- `Loader` (`loader.dfy`):
  - `LoadFile` and `LoadLines`, the `ReadConfigFile` loop as a function.
  - A reference definition: `ApplyAll` over the first four directives.
  - The stop after four directives, and that a file without directives changes nothing.
  - That reading the same file twice changes nothing. This is proved by viewing each directive as an overwrite (`Patch`).
- `Connection` (`connection.dfy`): the decisions of `Setup`. These are which connect call is made for each security type and kind, when `begin` is called and in which form, and what is returned. They are stated over a `Vendor` value that stands for the vendor libraries.
- `EasyWifi` (`easywifi.dfy`): the class `WifiConfig`, with the object's fields, its five constructors, and the step-by-step methods. `ReadConfigFile` splits the line in its buffer in place, writes the IP and key arrays with loops, and runs the read loop. `Setup` makes the connect and start-up calls. `ReadConfigFile` is proved equal to `LoadFile` and `Setup` to `SetupSpec`.
- `Wrappers` (`wrappers.dfy`): `Option`.

How the model treats the environment and undefined behaviour:

- **The SD card.** The result of `SD.open` is a parameter: `None` when the file cannot be opened, otherwise the file's contents.
- **The vendor calls.** `SD.open`, `connect` and `isInitialized` are functions held in a `Vendor` value, together with the invalid connection id. `begin` is not a function: the `BeginCall` value that says which `begin` overload `Setup` calls is passed to `isInitialized`, which answers whether the stack came up after that call.
- **Undefined behaviour.** Where the source's behaviour is undefined, the model reports an explicit `Fault`. The load then stops before that line changes anything, and `Setup` returns `UndefinedLoad`. The cases are:
  - an `IP` value with fewer than four tokens, because `strtoul` is then called on `NULL`;
  - an `SSID` value longer than 32 characters, which overflows `_ssid[33]`;
  - `KEY` or `KEYCHAR` bytes that would be written past the key buffer.

Behaviour at the edges, as the code has it:

- **Repeated directives count.** The loop counts every recognised directive line, so loading stops after four such lines even when some repeat a name (`LoadLinesIsFirstDirectives`). A SECURITY line with an unknown value also counts.
- **SSID is not truncated.** The header comments `_ssid[33]` as "max 32 char", but the code copies the value with `strcpy` without checking its length, so a longer value overflows. The model treats that as a fault.
- **The line-length limit is 100 characters.** `ReadLine` fails as soon as 100 characters arrive without a terminator, so a line of exactly 100 characters also fails (`ScanLineFails`).
- **Earlier lines survive a failed read.** A line that `ReadLine` cannot read only stops the loop: directives on earlier lines stay applied, and nothing after it is read (`LinesBeforeFailedRead`, `LoadStopsAtFailedRead`).
- **Any character after a terminator is consumed.** A terminator is a CR or an LF, and the character after it is always consumed (`ScanLineConsumesPair`), as the comment "\r\n always come together" in `ReadLine` assumes. Files with CR LF line ends read back line for line (`LinesRoundTrip`). In a file with bare LF endings, this swallows the first character of each following line.

## Model

| member | source | states |
|---|---|---|
| CStrings.CString | CKEasyWifiConfig/CKEasyWifiConfig.h:186-195 | The string in a char buffer is a prefix of it without NUL, and the buffer holds a NUL right after it whenever it is shorter than the buffer |
| CStrings.CStringOfPadded | CKEasyWifiConfig/CKEasyWifiConfig.h:125-140 | A buffer cleared with `memset` and filled with a shorter line holds exactly that line's C string |
| CStrings.IndexOf | CKEasyWifiConfig/CKEasyWifiConfig.h:188-190 | `strchr` finds nothing only when the character is absent; otherwise it finds the first occurrence |
| CStrings.IndexOfFirst | CKEasyWifiConfig/CKEasyWifiConfig.h:188 | In `t + c + rest` with `c` not in `t`, `strchr` finds `c` just after `t`, whatever `rest` holds |
| CStrings.UpperCase | CKEasyWifiConfig/CKEasyWifiConfig.h:194-195 | The upper-casing loop keeps the name's length |
| CStrings.StrTok | CKEasyWifiConfig/CKEasyWifiConfig.h:233-237 | Every token `strtok` returns is non-empty and free of the delimiter |
| CStrings.StrTokJoin | CKEasyWifiConfig/CKEasyWifiConfig.h:233-237 | `strtok` splits a join of non-empty, delimiter-free texts back into exactly those texts |
| CStrings.StrToUl | CKEasyWifiConfig/CKEasyWifiConfig.h:236 | `strtoul` never returns more than `ULONG_MAX` |
| CStrings.DecimalRoundTrip | CKEasyWifiConfig/CKEasyWifiConfig.h:259 | `strtoul` in base 10 reads back the decimal spelling of every `unsigned long` |
| CStrings.HexPairValue | CKEasyWifiConfig/CKEasyWifiConfig.h:246-252 | Two hex digits in `strb` are read as 16 times the first plus the second |
| CStrings.HexEncodeRoundTrip | CKEasyWifiConfig/CKEasyWifiConfig.h:248-253 | Each byte spelled as two hex digits is read back by the KEY loop's `strtoul` and `uint8_t` store |
| SdFiles.SdFile.Read | CKEasyWifiConfig/CKEasyWifiConfig.h:137 | `read()` returns the next character and advances, or returns -1 at end of file and stays |
| SdFiles.ScanLine | CKEasyWifiConfig/CKEasyWifiConfig.h:119-166 | A line read holds at most 100 characters, the cursor stays inside the file, and a successful read always advances it |
| SdFiles.ReadLine | CKEasyWifiConfig/CKEasyWifiConfig.h:119-166 | Result, new cursor and buffer of one call are those `ScanLine` gives; the buffer holds the line followed by NULs |
| SdFiles.ScanLineTerminated | CKEasyWifiConfig/CKEasyWifiConfig.h:139-145 | A CR or LF at offset `i < 100` ends the line there and consumes one more character when there is one |
| SdFiles.ScanLineOverlong | CKEasyWifiConfig/CKEasyWifiConfig.h:146-152 | 100 characters without a terminator make the call fail |
| SdFiles.ScanLineLast | CKEasyWifiConfig/CKEasyWifiConfig.h:153-159 | A short rest without terminator is returned as the last line, and the cursor moves to the end |
| SdFiles.ScanLineContent | CKEasyWifiConfig/CKEasyWifiConfig.h:139-152 | A successful line has fewer than 100 characters and none of them is CR or LF |
| SdFiles.ScanLineConsumesPair | CKEasyWifiConfig/CKEasyWifiConfig.h:141-145 | A terminated line lies in the file before a CR or LF, and the terminator is consumed with exactly one more character (none at end of file) |
| SdFiles.ScanLineUnterminated | CKEasyWifiConfig/CKEasyWifiConfig.h:153-159 | A short last line without terminator is returned whole, and the cursor ends at the end of the file |
| SdFiles.ScanLineFails | CKEasyWifiConfig/CKEasyWifiConfig.h:130-152 | A call fails if and only if the file is at its end or the next 100 characters hold no CR or LF |
| SdFiles.LinesContent | CKEasyWifiConfig/CKEasyWifiConfig.h:184 | Every line the loop receives is shorter than 100 characters and free of CR and LF |
| SdFiles.CrLfStep | CKEasyWifiConfig/CKEasyWifiConfig.h:130-147 | A line under 100 characters without CR or LF, followed by CR LF, is read whole, and reading resumes right after the LF |
| SdFiles.LinesOfCrLfFile | CKEasyWifiConfig/CKEasyWifiConfig.h:130-147 | From any cursor, a rest of the file made of short, CR- and LF-free lines each followed by CR LF is read back as exactly those lines |
| SdFiles.LinesRoundTrip | CKEasyWifiConfig/CKEasyWifiConfig.h:130-147 | A file of lines under 100 characters without CR or LF, each followed by CR LF, is read line by line back into exactly those lines |
| SdFiles.LinesBeforeFailedRead | CKEasyWifiConfig/CKEasyWifiConfig.h:130-160 | From any cursor, CR LF terminated short lines followed by a read that fails are exactly the lines read, whatever comes after |
| SdFiles.LinesBeforeOverlongOrEnd | CKEasyWifiConfig/CKEasyWifiConfig.h:130-160 | CR LF terminated short lines followed by the end of the file or by 100 characters without CR or LF are exactly the lines read |
| Directives.SecurityByNameIsExact | CKEasyWifiConfig/CKEasyWifiConfig.h:201-224 | A SECURITY value selects a type if and only if it is that type's exact, case-sensitive spelling |
| Directives.ParseLineSplitsAtFirstColon | CKEasyWifiConfig/CKEasyWifiConfig.h:186-195 | A line is a NAME:VALUE pair if and only if it is no comment and has a colon; the name is the text before the first colon, upper-cased, and the value is everything after it |
| Directives.ParseNameValueLine | CKEasyWifiConfig/CKEasyWifiConfig.h:188-195 | Writing a colon-free, non-comment name, a colon and any value, then parsing, gives back the upper-cased name and the value |
| Directives.BufferComment | CKEasyWifiConfig/CKEasyWifiConfig.h:186-187 | A buffer starting with `#` or `/` is a comment line |
| Directives.BufferNoSeparator | CKEasyWifiConfig/CKEasyWifiConfig.h:188-190 | A buffer whose string ends before any colon is a line without separator, which is skipped |
| Directives.BufferNameValue | CKEasyWifiConfig/CKEasyWifiConfig.h:188-195 | When the first colon of a buffer precedes every NUL, the name is the upper-cased text before it and the value is the C string after it |
| Directives.KeywordOfIsExact | CKEasyWifiConfig/CKEasyWifiConfig.h:201-260 | An upper-cased name selects a directive if and only if it is exactly that directive's keyword |
| Directives.DirectiveOfSkips | CKEasyWifiConfig/CKEasyWifiConfig.h:186-260 | A line carries no directive if and only if it is a comment, has no colon, or has an unknown name |
| Directives.HexKey | CKEasyWifiConfig/CKEasyWifiConfig.h:244-253 | The KEY loop keeps the key buffer's size |
| Directives.CopyCString | CKEasyWifiConfig/CKEasyWifiConfig.h:254-256 | `strcpy` into the key buffer keeps its size |
| Directives.ApplyDirective | CKEasyWifiConfig/CKEasyWifiConfig.h:201-260 | A directive whose effect is defined keeps a four-octet address and the key buffer's size |
| Directives.SecurityDirective | CKEasyWifiConfig/CKEasyWifiConfig.h:201-224 | SECURITY sets exactly the named type and nothing else; an unmatched value changes nothing |
| Directives.IpDirectiveDhcp | CKEasyWifiConfig/CKEasyWifiConfig.h:226-229 | An empty IP value, or one starting with `D`, turns DHCP on and changes nothing else |
| Directives.IpDirectiveStatic | CKEasyWifiConfig/CKEasyWifiConfig.h:230-239 | Any other IP value with four tokens turns DHCP off, stores the first four tokens' octets and changes nothing else |
| Directives.FormatIpIsStatic | CKEasyWifiConfig/CKEasyWifiConfig.h:228 | A dotted quad is never read as a DHCP request |
| Directives.FormatIpTokens | CKEasyWifiConfig/CKEasyWifiConfig.h:233-237 | `strtok` splits a dotted quad into the four decimal spellings |
| Directives.OctetRoundTrip | CKEasyWifiConfig/CKEasyWifiConfig.h:236 | Every octet's decimal spelling reads back as that octet |
| Directives.AddressRoundTrip | CKEasyWifiConfig/CKEasyWifiConfig.h:234-238 | Four tokens spelling the octets of an address store exactly that address |
| Directives.IpDirectiveTokens | CKEasyWifiConfig/CKEasyWifiConfig.h:230-239 | A static IP value whose tokens are `ts` is fault-free and stores the octets of `ts` |
| Directives.IpRoundTrip | CKEasyWifiConfig/CKEasyWifiConfig.h:226-239 | An IP directive spelling any address as a dotted quad sets exactly that static address and turns DHCP off |
| Directives.SsidDirective | CKEasyWifiConfig/CKEasyWifiConfig.h:240-243 | SSID of at most 32 characters stores the value verbatim and changes nothing else |
| Directives.KeyDirective | CKEasyWifiConfig/CKEasyWifiConfig.h:244-253 | KEY sets byte `i` to the hex pair at `2i`, for every `i` below half the value's length, ignores an odd last character and leaves other bytes and fields alone |
| Directives.KeyRoundTrip | CKEasyWifiConfig/CKEasyWifiConfig.h:244-253 | A KEY value spelling bytes in hex sets the key's first bytes to exactly those bytes and keeps the rest |
| Directives.KeyCharDirective | CKEasyWifiConfig/CKEasyWifiConfig.h:254-256 | KEYCHAR copies the value's characters and a terminating 0 into the key and leaves the bytes after it alone |
| Directives.KeyIndexDirective | CKEasyWifiConfig/CKEasyWifiConfig.h:257-259 | KEYINDEX stores what `strtoul` reads in base 10 and changes nothing else |
| Directives.KeyIndexRoundTrip | CKEasyWifiConfig/CKEasyWifiConfig.h:257-259 | KEYINDEX with the decimal spelling of `n` stores `n` |
| Directives.SecurityKeyIndexCommute | CKEasyWifiConfig/CKEasyWifiConfig.h:201-259 | SECURITY and KEYINDEX applied in either order give the same settings |
| Directives.DirectiveLine | CKEasyWifiConfig/CKEasyWifiConfig.h:186-260 | A line made of a keyword, a colon and a NUL-free value carries exactly that directive |
| Directives.KeyExample | CKEasyWifiConfig/CKEasyWifiConfig.h:244-253 | `KEY:1a2f3c` is a KEY directive and sets the key's first bytes to 0x1A, 0x2F, 0x3C |
| Directives.IpExample | CKEasyWifiConfig/CKEasyWifiConfig.h:226-239 | `IP:192.168.1.42` is an IP directive and sets the static address 192.168.1.42 with DHCP off |
| Loader.LoadLines | CKEasyWifiConfig/CKEasyWifiConfig.h:183-264 | The read loop keeps a four-octet address and the key size, and never reports an open failure |
| Loader.LoadFile | CKEasyWifiConfig/CKEasyWifiConfig.h:169-265 | Loading keeps a four-octet address and the key size |
| Loader.ApplyAll | CKEasyWifiConfig/CKEasyWifiConfig.h:201-260 | Applying directives in order, up to the first undefined one, keeps a four-octet address and the key size |
| Loader.LoadLinesIsFirstDirectives | CKEasyWifiConfig/CKEasyWifiConfig.h:183-264 | The loop applies exactly the first `4 - completed` directives of the remaining lines, in order; comments, separator-less lines and unknown names are skipped and not counted |
| Loader.StopsAfterFourDirectives | CKEasyWifiConfig/CKEasyWifiConfig.h:262-263 | Whatever follows lines that already hold four directives has no effect |
| Loader.NoDirectivesNoChange | CKEasyWifiConfig/CKEasyWifiConfig.h:184-190 | A file none of whose lines carries a directive leaves every setting unchanged |
| Loader.UnreadableFileNoChange | CKEasyWifiConfig/CKEasyWifiConfig.h:172-184 | A file that cannot be opened, or whose first line cannot be read, leaves every setting unchanged |
| Loader.SecurityAndKeyIndexInEitherOrder | CKEasyWifiConfig/CKEasyWifiConfig.h:201-259 | A file of exactly two directive lines, a SECURITY line naming a type and a KEYINDEX line, loads as the settings with that type and the index read, and nothing else changed, in either order |
| Loader.WepKeyIndexExample | CKEasyWifiConfig/CKEasyWifiConfig.h:201-259 | `SECURITY:WEP_40` and `KEYINDEX:2` give WEP-40 with key index 2 in either order |
| Loader.LoadCrLfFile | CKEasyWifiConfig/CKEasyWifiConfig.h:183-201 | A file of CR LF terminated lines loads as the directives those lines carry |
| Loader.LoadStopsAtFailedRead | CKEasyWifiConfig/CKEasyWifiConfig.h:183-185 | Loading stops at a line too long to read or at the end of the file: the directives of the earlier lines are applied, and a file with anything after that point loads exactly as the file cut there |
| Loader.LoadTwoLineFile | CKEasyWifiConfig/CKEasyWifiConfig.h:183-201 | A file of two CR LF terminated lines loads as the directives of the first and then the second |
| Loader.KeywordLine | CKEasyWifiConfig/CKEasyWifiConfig.h:186-201 | A keyword, a colon and a short value free of NUL, CR and LF make a line `ReadLine` returns whole and that carries exactly that directive |
| Loader.WepKeyIndexFileExample | CKEasyWifiConfig/CKEasyWifiConfig.h:169-265 | The file `SECURITY:WEP_40` CR LF `KEYINDEX:2` CR LF, in either line order, loads as WEP-40 with key index 2 and nothing else changed |
| Loader.StatusWithoutFault | CKEasyWifiConfig/CKEasyWifiConfig.h:183-264 | Directives none of which is undefined are all applied and loading ends normally |
| Loader.PatchSecurity | CKEasyWifiConfig/CKEasyWifiConfig.h:201-224 | With every SECURITY line naming `t` and no undefined step, the list overwrites the type with `t` exactly when it holds such a line, and otherwise leaves it alone |
| Loader.PatchKeyIndex | CKEasyWifiConfig/CKEasyWifiConfig.h:257-259 | With every KEYINDEX line reading `n` and no undefined step, the list overwrites the index with `n` exactly when it holds such a line, and otherwise leaves it alone |
| Loader.SecurityAndKeyIndexAnywhere | CKEasyWifiConfig/CKEasyWifiConfig.h:183-264 | When the first four directives of a file include a SECURITY line naming `t` and a KEYINDEX line reading `n`, in any order and among any other lines, with no other type or index among them and no undefined step, loading ends normally with type `t` and index `n` |
| Loader.PatchOf | CKEasyWifiConfig/CKEasyWifiConfig.h:201-260 | The overwrite a directive amounts to never stores an address of other than four octets |
| Loader.ApplyDirectiveIsPatch | CKEasyWifiConfig/CKEasyWifiConfig.h:201-260 | Every directive only overwrites fields and key bytes with values taken from its own text |
| Loader.ApplyAllIsPatch | CKEasyWifiConfig/CKEasyWifiConfig.h:183-264 | Applying a list of directives is one overwrite, and where it stops does not depend on the settings |
| Loader.ApplyAllIdempotent | CKEasyWifiConfig/CKEasyWifiConfig.h:183-264 | Applying the same directives to their own result changes nothing |
| Loader.LoadIdempotent | CKEasyWifiConfig/CKEasyWifiConfig.h:169-265 | Loading the same configuration file a second time changes nothing |
| Connection.PassPhrase | CKEasyWifiConfig/CKEasyWifiConfig.h:298 | `szPassPhrase` is the key buffer read up to its first 0: it matches the buffer byte for byte, holds no NUL, and is followed in the buffer by a 0 unless it fills the buffer |
| Connection.PassPhraseOfKeyChar | CKEasyWifiConfig/CKEasyWifiConfig.h:254-256 | After a KEYCHAR line with a NUL-free value that fits, the passphrase `Setup` passes at line 298 is exactly that value |
| Connection.ConnectsWithKey | CKEasyWifiConfig/CKEasyWifiConfig.h:291-295 | The raw-key overload is used if and only if the type is one of the three WPA key types, with the SSID and key |
| Connection.ConnectsWithPassPhrase | CKEasyWifiConfig/CKEasyWifiConfig.h:296-302 | WPA2 and WPA-auto passphrase types pass only the passphrase; the WPA passphrase type, and only it, uses the overload that also names the type |
| Connection.ConnectsWithWep | CKEasyWifiConfig/CKEasyWifiConfig.h:303-308 | WEP-40 and WEP-104, and only they, use the WEP overloads with the key and key index |
| Connection.ConnectsOpen | CKEasyWifiConfig/CKEasyWifiConfig.h:309-311 | The open connect is used if and only if the type is Open or none of the listed types |
| Connection.ProfileKindIgnoresFields | CKEasyWifiConfig/CKEasyWifiConfig.h:315-325 | The `WF_Config.x` kind connects with profile 0 whatever the fields hold |
| Connection.FailsFastOnInvalidConnection | CKEasyWifiConfig/CKEasyWifiConfig.h:327-370 | An invalid connection id ends `Setup` with false and no `begin` |
| Connection.BeginFollowsDhcpFlag | CKEasyWifiConfig/CKEasyWifiConfig.h:327-342 | `begin` is called if and only if the connection id is valid, with DHCP or with the static address as `useDhcp` says |
| Connection.SucceedsIffInitialized | CKEasyWifiConfig/CKEasyWifiConfig.h:344-370 | `Setup` returns true if and only if the connection id is valid and the stack reports itself initialised within the timeout |
| Connection.OnlySdKindReadsFile | CKEasyWifiConfig/CKEasyWifiConfig.h:274-281 | The other kinds never load, connect with the fields as constructed, and do not depend on the SD card |
| Connection.SdKindUsesLoadedSettings | CKEasyWifiConfig/CKEasyWifiConfig.h:274-312 | The SD kind gives up if and only if loading was undefined, and otherwise connects with the loaded settings |
| EasyWifi.FindColon | CKEasyWifiConfig/CKEasyWifiConfig.h:188 | `strchr` stops at the first colon or at the string's NUL, and no earlier character is either |
| EasyWifi.UpperCaseName | CKEasyWifiConfig/CKEasyWifiConfig.h:194-195 | The loop upper-cases the name in place and leaves the rest of the buffer alone |
| EasyWifi.SplitLine | CKEasyWifiConfig/CKEasyWifiConfig.h:186-195 | Splitting classifies the line as `ParseLine` does on the buffer's C string; for a NAME:VALUE line the buffer then holds the upper-cased name, a NUL where the colon was and the rest unchanged, so its C string is the name and the C string after the NUL is the value; any other line leaves the buffer as it was |
| EasyWifi.StoreOctets | CKEasyWifiConfig/CKEasyWifiConfig.h:233-238 | The IP loop leaves `rgbIP` holding the octets of the first four tokens |
| EasyWifi.StoreHexKey | CKEasyWifiConfig/CKEasyWifiConfig.h:246-253 | The KEY loop leaves the key buffer as `HexKey` describes |
| EasyWifi.CopyKeyChars | CKEasyWifiConfig/CKEasyWifiConfig.h:256 | `strcpy` leaves the key buffer as `CopyCString` describes |
| EasyWifi.ReadDirective | CKEasyWifiConfig/CKEasyWifiConfig.h:184-201 | One loop turn reads a line as `ScanLine` says and finds the directive `DirectiveOf` gives; the buffer holds the line padded with NULs, split in place at the first colon when the line is a NAME:VALUE pair, with the name and the value as its two C strings |
| EasyWifi.WifiConfig.WfConfigDhcp | CKEasyWifiConfig/CKEasyWifiConfig.h:99 | The `WF_Config.x` kind with DHCP and the 40000 ms timeout |
| EasyWifi.WifiConfig.WfConfigStatic | CKEasyWifiConfig/CKEasyWifiConfig.h:101 | The `WF_Config.x` kind with DHCP off and the given address |
| EasyWifi.WifiConfig.SecInfoDhcp | CKEasyWifiConfig/CKEasyWifiConfig.h:106 | The `SECINFO` kind with the caller's security data and SSID, with DHCP |
| EasyWifi.WifiConfig.SecInfoStatic | CKEasyWifiConfig/CKEasyWifiConfig.h:108 | The `SECINFO` kind with the caller's security data and SSID, with DHCP off and the given address |
| EasyWifi.WifiConfig.SdCard | CKEasyWifiConfig/CKEasyWifiConfig.h:113 | The SD kind with the file name; every other field is as yet unset |
| EasyWifi.WifiConfig.ApplyInPlace | CKEasyWifiConfig/CKEasyWifiConfig.h:201-259 | The field writes of one directive leave the fields as `ApplyDirective` says |
| EasyWifi.WifiConfig.ReadConfigFile | CKEasyWifiConfig/CKEasyWifiConfig.h:169-265 | The loop leaves the fields, and ends with the status, that `LoadFile` gives for the file |
| EasyWifi.WifiConfig.Setup | CKEasyWifiConfig/CKEasyWifiConfig.h:269-371 | The calls made and the value returned are those of `SetupSpec`, and the fields afterwards are the settings it connected with |

## Left out

- Serial debug output (`CKEASYWIFICONFIG_SERIAL_DEBUG`): it only prints messages.
- The `status` out-parameters and `isStatusAnError` (lines 357-362): they only choose which debug message is printed.
- The bodies of `DWIFIcK::connect`, `DNETcK::begin`, `DNETcK::isInitialized` and `SD.open`: they belong to the vendor libraries. `SD.open`, `connect` and `isInitialized` are functions in a `Vendor` value. `begin` has no effect in the model: which overload is called is a `BeginCall` value, recorded in the result of `Setup` and passed to `isInitialized`. The 40000 ms wait is the timeout argument passed to `isInitialized`.
- Conditional compilation: all three kinds are modelled together. The header as shipped defines `CKEASYWIFICONFIG_SUPPRESS_WF_CONFIG`, which removes the two `WF_Config.x` constructors and the `connect(0)` call.
- Undefined behaviour: IP with fewer than four tokens, an SSID over 32 characters, and KEY or KEYCHAR past the key buffer. The model stops at an explicit fault instead of modelling what the hardware would do.
- The size of `secInfo.key.rgbKey` is declared in the vendor library, not in this source. The model takes it from the key array the object is built with.
- `secInfo.key.index`: the width of this field is not visible. The model stores the value `strtoul` returns, at most 2^32 - 1, without truncating it.
- Members the constructors leave uninitialised come from an `initial` settings value. For the kinds other than the SD card, `configFile` is the empty text.
- `ssid` is a pointer in the source: to the caller's string, or to `_ssid` after an SSID line. The model holds the string the pointer denotes, not the aliasing between `ssid` and `_ssid`.
- `strtok`: the NULs it writes into the read buffer and its hidden static position are not modelled. It is the list of tokens successive calls return. The model computes the four octets before the loop that stores them, and leaves out the fifth `strtok` call, whose result is never used.
- The empty `for` loop over the SECURITY value (lines 204-205) does nothing and is left out.
- The layout of `DWIFIcK::SECINFO` is declared in the vendor header, which is not part of this model. The model assumes that `key.rgbKey`, `key.szPassPhrase` and the WPA and WEP key members are views of one byte buffer, and that `key.index` is stored apart from it. `Connection.PassPhrase`, `Connection.PassPhraseOfKeyChar` and the WEP connect calls rely on that assumption.
- `char` is taken as an octet from 0 to 255. Whether the target's `char` is signed does not matter for any comparison the code makes.
- Directives.HexKey: its own contract states only the size of the key buffer. What it stores is stated by `KeyDirective` and `KeyRoundTrip`.
- Directives.CopyCString: its own contract states only the size of the key buffer. What it stores is stated by `KeyCharDirective`.
- CStrings.UpperCase: its own contract states only the length. Its body, `toupper` applied to each character, is the definition the parsing lemmas use.
