# Verified model of the Metis antique marketplace

The Metis server and its web client contain a number of algorithms and small
state machines written by hand: the QR label encoder with its Reed-Solomon
code, SHA-1 and the WebSocket framing of the log stream, the multipart photo
upload and the photo gallery behind it, the mail encoders, the settlement and
booth-rent threads, the login rate limiter, the route table, the configuration
reader, the log tail and the escaping functions. This project states them in
Dafny, loop by loop where the original loops, and proves what they are for.

`dafny verify dfyconfig.toml` checks everything.

## How it is laid out

| files | subject |
|---|---|
| `GaloisField`, `ReedSolomon`, `CodeDistance` | the field tables, the coder, and how much damage a codeword survives |
| `QrBits`, `QrLayout`, `QrScanner`, `QrMatrix`, `QrLabels` | bit stream, geometry, a reader by the standard, drawing, and which labels look alike |
| `Bytes`, `Sha1`, `Sha1Standard`, `Base64`, `WsFraming` | the WebSocket handshake digest and frames; both base64 encoders |
| `Text`, `Multipart`, `MultipartRoundTrip`, `MultipartStandard`, `FormFields` | the upload loop on any body, on printed parts, on the forms the standard allows, and on their fields |
| `Gallery`, `PhotoDirectory`, `PhotoForms` | the gallery state machine, the handlers with the photo directory, and uploaded forms on it |
| `QuotedPrintable` | mail bodies |
| `Settlements`, `SaleDates`, `BoothRent` | the two periodic threads over their tables, and the dates they compare |
| `RateLimiter`, `Router`, `Pson`, `LogTail`, `Escape`, `Url` | login limiter, routes, configuration, log tail, escaping |
| `Options`, `Sequences` | shared helpers |

Each loop of the original is a method proved equal to a function of its input,
or a class method proved equal to a step function on the tables. The
guarantees are lemmas about those functions: decoders and readers written from
the standards, independent definitions, and invariants over all runs.

## What the proofs found

- A label's symbol is complete for every text, but it reads as the text if and
  only if that has at most 17 code units, all of one byte. The address of an item
  is longer before its id begins, so all item labels of one server are the same
  symbol.
- Too short a grace period makes the settlement thread lose sales: they count
  as settled without being paid. The thread goes by local time and sales are
  dated in UTC, so one day is enough only where local time is ahead of UTC by
  no more than `check_hour` hours; two days are always enough.
- Settlements take fees off twice: `net_proceeds` is already net of fees, and
  `net_due` takes them off again.
- Asking for a primary photo that does not exist leaves an item without one,
  and deleting another item's primary does the same to that item.
- A form part without header lines, or without a body, is allowed by the
  standard and misread by the upload loop, and so is a form after lines that
  mention the boundary.
- A text field of a form is saved as a photo when a value mentions `filename=`.
- The quoted-printable body of a mail conforms to its standard if and only if
  the CR and LF of the text come in pairs.
- Photo file names start over with every upload, so a second upload overwrites
  the first one's files wherever form and extension agree at a position, and
  deleting one of the photos then takes the other's file away.
- A booth invoice is never marked overdue, because the collector never links
  invoices to payments. A rate change between invoice and late fee changes the
  amount asked, and charging drops a discount given by hand. An invoice day
  after due day and grace days makes a payment overdue in the wake-up that
  makes it.
- A plus sign that stands for itself in a query is read as a space.
- `query_param` searches values as well as names. Its search for a key stops at
  the key's own pair if and only if no earlier pair contains the key and an
  equals sign, so over all values only the first key of a query can be trusted.
  Where clients escape the equals signs in values, it is enough that no earlier
  name ends with the key.

## How the model reads the code

- Bytes are numbers below 256 or 8-bit vectors. C++ strings are byte strings,
  one character a byte. JavaScript text is a sequence of 16-bit code units, of
  which the encoder keeps the low byte.
- Shifts and ORs of disjoint fields are written as sums and quotients in
  base64 and in length fields; SHA-1 and the QR bits use bit vectors.
- `Uint8Array` LOG is an array of numbers, each below 255.
- QR pad bytes are chosen by the parity of their index, as the code does. The
  standard always starts with 0xEC, so no conformance is claimed for them.
- Each handler and each wake-up of a thread is one atomic step. Tables are
  sequences in id order or maps; ids are never used again (AUTOINCREMENT);
  rows of a missing item or rental are refused, and deleting a rental deletes
  its payments and invoices (foreign keys).
- Settlement money is in integer cents. The clock counts seconds of UTC, which
  date the sales; how far local time is ahead of it is a function of the moment,
  so that daylight saving is covered. Stored dates are compared as text, where a
  bare date comes before every time of its day. Whether a zero sum prints as the
  text "0" depends on its SQL type, so it is a parameter. A sale keeps its owner
  and its date.
- Booth rent is in real numbers and a period is the text of year and month.
- Multipart: which file names the disk accepts is a parameter. The photo
  directory is a map from names to contents; removing a file succeeds.
- The rate limiter takes the steady clock as an argument that never runs back.
- SQL queries are functions on the tables with the same conditions and order.

## Model

| member | source | states |
|---|---|---|
| GaloisField.KeyPowers | web/js/pages/qr.js:13-20 | Doubling modulo 0x11D returns to 1 after 255 steps, is not at 1 after 85, 51 or 15, and is at 0x1D after 8. |
| GaloisField.NoShorterPeriod | web/js/pages/qr.js:13-20 | No positive exponent below 255 brings the generator 2 back to 1, so its order is exactly 255. |
| GaloisField.ExpInjective | web/js/pages/qr.js:13-20 | The first 255 table entries are all different. |
| GaloisField.LogExists | web/js/pages/qr.js:13-20 | Every nonzero byte is one of those entries, so LOG is defined everywhere but at 0. |
| GaloisField.LogExp | web/js/pages/qr.js:13-20 | LOG inverts EXP, modulo 255. |
| GaloisField.FillPowers | web/js/pages/qr.js:13-20 | The first table loop leaves EXP holding the powers of 2 and LOG their exponents, although it works on a wider running number. |
| GaloisField.RepeatPowers | web/js/pages/qr.js:13-20 | The second table loop extends EXP to 512 entries that are still the powers of 2. |
| GaloisField.Tables.constructor | web/js/pages/qr.js:13-20 | After initialisation both tables are complete and correct. |
| GaloisField.Tables.GfMul | web/js/pages/qr.js:22 | The table product is the product of the field. |
| GaloisField.MulExp | web/js/pages/qr.js:22 | Multiplying by a table power is repeated doubling: the partner that ties the logarithm form to polynomial arithmetic. |
| GaloisField.MulDistributes | web/js/pages/qr.js:22 | The table product distributes over exclusive or, on both sides. |
| GaloisField.MulAssociates | web/js/pages/qr.js:22 | The table product is associative. |
| GaloisField.MulNonzero | web/js/pages/qr.js:22 | A product is 0 exactly when a factor is. |
| GaloisField.MulCancel | web/js/pages/qr.js:22 | A nonzero factor can be cancelled. |
| GaloisField.Tables.GfPow | web/js/pages/qr.js:23 | The table power is repeated multiplication for every nonzero base; every power of 0 reads as 1. |
| GaloisField.PowerLog | web/js/pages/qr.js:23 | Repeated multiplication adds up logarithms modulo 255. |
| ReedSolomon.MultiplyByRoot | web/js/pages/qr.js:26-34 | One turn of the generator loop multiplies the polynomial by (x + root), with both nested loops. |
| ReedSolomon.EvalTimesRoot | web/js/pages/qr.js:26-34 | The value of that product at any x is the value before times (x + root). |
| ReedSolomon.GeneratorVanishes | web/js/pages/qr.js:26-34 | The generator of degree n is 0 at each of the first n powers of 2. |
| ReedSolomon.BuildGenerator | web/js/pages/qr.js:26-34 | The first loop builds exactly the product of (x + 2^i) for i below nec. |
| ReedSolomon.ReduceAt | web/js/pages/qr.js:35-40 | The inner division loop adds the leading coefficient times the generator in place, and clears that coefficient. |
| ReedSolomon.ReducedKeepsValues | web/js/pages/qr.js:35-40 | Adding a multiple of the generator changes no value at a root of it. |
| ReedSolomon.RsEcc | web/js/pages/qr.js:25-41 | For every data and nec, nec bytes come back and data followed by them vanishes at the first nec powers of 2. |
| CodeDistance.EccUnique | web/js/pages/qr.js:25-41 | No other nec bytes would do: the check bytes are determined by the data, up to 255 bytes in all. |
| CodeDistance.FewTermsVanish | web/js/pages/qr.js:25-41 | A polynomial with n terms of different degrees below 255 that vanishes at the first n powers of 2 is 0. |
| CodeDistance.MinimumDistance | web/js/pages/qr.js:25-41 | Two different codewords of at most 255 bytes differ in more than nec places. |
| CodeDistance.UniqueDecoding | web/js/pages/qr.js:25-41 | Damage to at most half of nec bytes leaves only one codeword in reach. |
| CodeDistance.LogQuotient | web/js/pages/qr.js:25-41 | The logarithms of the first two syndromes of a one-byte error differ by its position, modulo 255. |
| CodeDistance.RepairOneByte | web/js/pages/qr.js:25-41 | With two check bytes or more, overwriting any one byte with anything is undone by syndrome decoding. |
| QrBits.AddBits | web/js/pages/qr.js:61 | Appends the low n bits of a value, most significant first. |
| QrBits.BuildStream | web/js/pages/qr.js:62-68 | Builds mode nibble, count, text bytes and terminator, bit by bit. |
| QrBits.ReadFields | web/js/pages/qr.js:62-68 | A reader finds mode, count and text in that stream whatever follows it. |
| QrBits.Align | web/js/pages/qr.js:69 | Fills with zero bits up to the next byte boundary, and not further. |
| QrBits.PackByte | web/js/pages/qr.js:71-75 | The inner packing loop shifts eight bits into the byte they denote. |
| QrBits.PackLoop | web/js/pages/qr.js:71-75 | Groups a whole number of bytes of bits into codewords. |
| QrBits.ByteRoundTrip | web/js/pages/qr.js:71-75 | A byte is the number its eight bits denote. |
| QrBits.PackUnpack | web/js/pages/qr.js:71-75 | Spreading codewords to bits and packing them again changes nothing. |
| QrBits.UnpackPack | web/js/pages/qr.js:71-75 | Packing bits and spreading them again changes nothing. |
| QrBits.BuildCodewords | web/js/pages/qr.js:46-78 | The data codewords are stream, packing and pad bytes; there are always 19 of them. |
| QrBits.ReadsWholeText | web/js/pages/qr.js:46-78 | A text of bytes comes back whole if and only if it has at most 17 of them. |
| QrBits.CodewordsTellCarried | web/js/pages/qr.js:46-78 | Two texts have the same data codewords if and only if their first min(length, 17) bytes are the same. |
| QrBits.ReadBack | web/js/pages/qr.js:46-78 | Read as byte mode, the data codewords give back the first min(length, 17) bytes of the text, whatever follows them. |
| QrLayout.FinderRun | web/js/pages/qr.js:89-96 | Through the centre of each finder block a scanner sees dark 1, light 1, dark 3, light 1, dark 1, across and down, between light separators. |
| QrLayout.FinderRings | web/js/pages/qr.js:89-96 | A finder block consists of square rings around its centre, all dark but the one two steps out. |
| QrMatrix.DrawFinder | web/js/pages/qr.js:89-96 | Draws and marks one finder block at its place, and nothing outside it. |
| QrMatrix.Mark | web/js/pages/qr.js:98-103 | Draws and marks one module if it lies inside the symbol, and nothing else. |
| QrMatrix.DrawSeparators | web/js/pages/qr.js:98-103 | Draws and marks exactly the light separator strips. |
| QrMatrix.DrawTiming | web/js/pages/qr.js:105-108 | Draws and marks exactly the two alternating timing lines. |
| QrMatrix.DrawFormat | web/js/pages/qr.js:110-125 | Draws the format word in both copies, every format module showing its own bit. |
| QrLayout.FormatPositions | web/js/pages/qr.js:110-125 | Each bit of the format word has its place in both copies. |
| QrLayout.FormatCovered | web/js/pages/qr.js:110-125 | Every format module shows one of those bits: nothing else lies in the strips. |
| QrScanner.LowZeroValid | web/js/pages/qr.js:110-125 | The fifteen bits of level 01 and mask 000 with their check bits are divisible by the generator 10100110111. |
| QrMatrix.FormatDrawn | web/js/pages/qr.js:110-125 | A reader that takes both copies from the cells ISO/IEC 18004 section 7.9 lists, most significant bit first, and checks the code word, reads level 01 and mask 000 from every finished symbol. |
| QrLayout.FormatWordValid | web/js/pages/qr.js:110-125 | The stored word, with the mask of ISO/IEC 18004:2015 section 7.9 removed, is level L and mask 0 and a multiple of the format code's generator. |
| QrLayout.FunctionalRegions | web/js/pages/qr.js:84-126 | Finder blocks, separators, timing lines, format strips and the dark module are disjoint and make up all function modules. |
| QrMatrix.DrawPatterns | web/js/pages/qr.js:84-126 | After all patterns are drawn, exactly the function modules are marked and show their pattern; the rest is unfilled. |
| QrMatrix.CodewordBits | web/js/pages/qr.js:131 | The codewords become one run of bits, eight each, most significant first. |
| QrMatrix.MaskTwice | web/js/pages/qr.js:142 | Pattern 000 of ISO/IEC 18004 section 7.8, which inverts where row plus column is even, takes the drawn mask off again. |
| QrLayout.Capacity | web/js/pages/qr.js:129-147 | The zigzag has room for exactly 208 bits, which is 26 codewords. |
| QrMatrix.BitIndexInRange | web/js/pages/qr.js:129-147 | There is a codeword bit for every data module, so no module is filled up with 0. |
| QrMatrix.PlaceRow | web/js/pages/qr.js:129-147 | One row of a column pair places the next bits, masked, in the free modules of that row and nowhere else. |
| QrMatrix.PlaceData | web/js/pages/qr.js:129-147 | The placement loops put every bit in its one place along the zigzag, skip the timing column, and leave the patterns alone. |
| QrMatrix.ReadPlaced | web/js/pages/qr.js:129-147 | Unmasking and reading in zigzag order gives back the placed bits in order: none lost, repeated or left over. |
| QrMatrix.ReadSymbol | web/js/pages/qr.js:129-147 | A reader that takes the mask number from the symbol's own format modules and undoes that pattern along the zigzag gets its 26 codewords. |
| QrMatrix.Encode | web/js/pages/qr.js:45-149 | For every text: no module is unfilled, the patterns are intact, and a reader that goes by the mask number it finds in the format modules gets 26 codewords that form a Reed-Solomon codeword with 7 check bytes and say the first min(length, 17) low bytes of the text. |
| QrLabels.LabelReadsIff | web/js/pages/qr.js:45-149 | A finished symbol reads as its text if and only if that has at most 17 code units, all below 0x100. |
| QrLabels.EuroSignLost | web/js/pages/qr.js:45-149 | For one: the label of U+20AC reads as U+00AC. |
| QrLabels.SameLabelIff | web/js/pages/qr.js:80-148 | Two finished symbols are the same in every module if and only if the bytes they carry are the same. |
| QrLabels.IdNotCarried | web/js/pages/qr.js:182-189 | Whatever protocol and host, the address of an item fills the 17 bytes before the item's id begins. |
| QrLabels.ItemLabelsAlike | web/js/pages/qr.js:182-189 | So all item labels of one server are the same symbol. |
| Sha1.FewestZeros | server/src/ws_log.cpp:33-37 | The zeros added are the fewest that reach a block boundary. |
| Sha1.Pad | server/src/ws_log.cpp:33-37 | The padding loop terminates and builds the padded message of RFC 3174 section 4. |
| Sha1.PaddingReversible | server/src/ws_log.cpp:33-37 | A message is recovered from its padded form if and only if it is shorter than 2^61 bytes, where the length field wraps. |
| Bytes.AppendBigEndian | server/src/ws_log.cpp:33-37 | The length loop writes a number most significant byte first. |
| Sha1.FillSchedule | server/src/ws_log.cpp:39-46 | The two loops fill the work array with the message schedule of RFC 3174 section 6.1. |
| Sha1.QueueHolds | server/src/ws_log.cpp:39-46 | The queue of 16 words of RFC 3174 section 6.2 always holds the last 16 words of that schedule. |
| Sha1.RunRounds | server/src/ws_log.cpp:47-58 | The loop over five variables computes the eighty rounds of the standard. |
| Sha1.MethodsAgree | server/src/ws_log.cpp:47-58 | The rounds on the array of 80 words and the rounds on the circular queue give the same state: the two methods of the standard agree. |
| Sha1.RoundConstants | server/src/ws_log.cpp:47-58 | The four constants are 2^30 times the square roots of 2, 3, 5 and 10, rounded down. |
| Sha1.RoundReversible | server/src/ws_log.cpp:47-58 | Each round can be undone, given its word. |
| Sha1.RoundsInjective | server/src/ws_log.cpp:47-58 | On one block, different states stay different through all rounds. |
| Sha1Standard.RotationBits | server/src/ws_log.cpp:43-56 | Bit by bit, the three rotations move bit k to bit k + 1, k + 5 and k + 30, modulo 32. |
| Sha1Standard.ScheduleBits | server/src/ws_log.cpp:43-56 | Bit k + 1 of word t of the schedule, for t from 16 on, is the exclusive or of bits k of words t - 3, t - 8, t - 14 and t - 16. |
| Sha1Standard.FunctionBits | server/src/ws_log.cpp:43-56 | Bit by bit, the round functions are choice, parity, majority and parity. |
| Sha1Standard.InitialDigits | server/src/ws_log.cpp:31 | Taken octet by octet from the least significant, the five initial words spell the hexadecimal digits up, down, and both ways in turn. |
| Sha1.WriteDigest | server/src/ws_log.cpp:59-60 | The nested output loops write the five words most significant byte first. |
| Sha1.Hash | server/src/ws_log.cpp:30-61 | The in-place loops compute the digest of RFC 3174 section 6.1, for every message. |
| Sha1Standard.AbcDigest | server/src/ws_log.cpp:30-61 | The digest of abc is the one RFC 3174 section 7.3 prints. |
| Base64.Alphabet | server/src/ws_log.cpp:63-73 | The 64 symbols are those of RFC 4648 section 4 in their order. |
| Base64.StandardExamples | server/src/ws_log.cpp:63-73 | The encodings of f, fo, foo and foobar are those of RFC 4648 section 10. |
| Base64.WebSocketEncode | server/src/ws_log.cpp:63-73 | The loop over groups of three writes the encoding that the strict decoder inverts. |
| Base64.DecodeIffEncode | server/src/ws_log.cpp:63-73 | A strict decoder accepts exactly what the encoder writes, and gives back the data. |
| Base64.EncodeLength | server/src/ws_log.cpp:63-73 | The output has 4 * ceil(n / 3) characters. |
| Base64.MailEncode | server/src/smtp.cpp:43-58 | The mail sender's loop writes the same characters as the WebSocket one: both equal one function. |
| WsFraming.BuildFrame | server/src/ws_log.cpp:143-158 | The builder writes the frame that the parser lemmas are about, for every length below 2^64. |
| WsFraming.LengthRoundTrip | server/src/ws_log.cpp:143-158 | A parser that accepts only the shortest of the three length forms reads every length field back, up to 2^63. |
| WsFraming.FrameRoundTrip | server/src/ws_log.cpp:143-158 | A frame is parsed back to its message and exactly what follows it. |
| WsFraming.StreamRoundTrip | server/src/ws_log.cpp:143-158 | Any sequence of messages, framed one after another, parses back to the same sequence. |
| WsFraming.StreamCanonical | server/src/ws_log.cpp:143-158 | No other byte string parses as those messages. |
| Multipart.LocatePart | server/src/app_photos.cpp:84-98 | A turn finds the part after the first delimiter from its position on, with headers up to the first blank line and content up to the first delimiter line or the end; it stops if and only if no delimiter is left, the next one is closing or cut off, or no blank line follows it. |
| Multipart.NextUnique | server/src/app_photos.cpp:84-98 | There is never more than one such part, so the previous row fixes the result. |
| Multipart.ParseUpload | server/src/app_photos.cpp:84-138 | The upload loop terminates for every body and boundary and saves what its turns find, numbered in order. |
| Multipart.SlicesInOrder | server/src/app_photos.cpp:84-138 | For every body, the contents found lie inside it, in order and apart from each other. |
| MultipartRoundTrip.HeadersEnd | server/src/app_photos.cpp:84-138 | Headers without a blank line are found to end where they end. |
| MultipartRoundTrip.ContentEnds | server/src/app_photos.cpp:84-138 | Content without the delimiter is found to end where it ends. |
| MultipartRoundTrip.PartsPrinted | server/src/app_photos.cpp:84-138 | From a form whose parts have header text and content the loop finds exactly the parts, whatever the header text is, as long as it ends at its blank line. |
| MultipartStandard.FormReadIff | server/src/app_photos.cpp:84-138 | On a form of RFC 2046 section 5.1.1, where header lines and the body of a part may be missing and lines may stand before the form, the parts found are those printed if and only if every part has a header line and a body and the lines before do not mention the boundary. |
| MultipartStandard.FormSlices | server/src/app_photos.cpp:84-138 | The positions the previous row compares with hold the contents of the parts. |
| MultipartStandard.HeaderlessMissed | server/src/app_photos.cpp:84-138 | For one: a part that starts with its blank line is never found as it is. |
| MultipartStandard.FormRoundTrip | server/src/app_photos.cpp:84-138 | Uploading a form that is read as it is has the effect of its parts taken one by one. |
| MultipartRoundTrip.UploadRoundTrip | server/src/app_photos.cpp:84-138 | The same for parts with arbitrary header text that ends at its blank line. |
| MultipartRoundTrip.AllFilesKept | server/src/app_photos.cpp:84-138 | If the disk accepts every file, the files saved are the file parts' contents in order, and the caption is the last caption field. |
| MultipartRoundTrip.NamesDiffer | server/src/app_photos.cpp:104-117 | Parts with different numbers get different stored names, whatever their headers. |
| MultipartRoundTrip.UploadNamesDistinct | server/src/app_photos.cpp:104-117 | One upload never writes two files under one name. |
| MultipartRoundTrip.SameNameIff | server/src/app_photos.cpp:104-117 | Two parts of an item, of one upload or two, are stored under one name if and only if their numbers are equal, both or neither quote a file name, and the extensions are equal. |
| MultipartRoundTrip.OtherItemsDiffer | server/src/app_photos.cpp:104-117 | Photos of items with different numbers are never stored under one name. |
| MultipartRoundTrip.OverwritesIff | server/src/app_photos.cpp:104-117 | A later upload to an item overwrites a file of an earlier one if and only if at some position both store a part of the same form and extension. |
| MultipartRoundTrip.SecondUploadOverwrites | server/src/app_photos.cpp:104-117 | For one: two uploads of one .jpg file each, with different names and contents, are stored under one name. |
| FormFields.FileIff | server/src/app_photos.cpp:105-127 | For every list of parameters and other header lines: a part is taken for a photo if and only if a parameter's name ends with filename, or a value or another line contains filename and an equals sign. |
| FormFields.CaptionIff | server/src/app_photos.cpp:105-127 | It mentions the caption if and only if a parameter's name ends with name and its quoted value is caption, or another line contains just that text. |
| FormFields.OrdinaryName | server/src/app_photos.cpp:105-127 | Where nothing else mentions filename, the quoted file name comes back from the printed header, and none if there is none. |
| FormFields.TextTakenForPhoto | server/src/app_photos.cpp:105-127 | For one: a text field called filename= is taken for a photo. |
| FormFields.UploadOfFields | server/src/app_photos.cpp:84-138 | On a form of fields whose parameters are name and filename, printed as RFC 7578 does, the upload loop saves exactly the contents of the fields with a filename parameter, each under its number with the ending of its quoted name, and takes its caption from the last other field called caption. |
| FormFields.CaptionAndPhoto | server/src/app_photos.cpp:84-138 | For one: a caption field and a file give that caption and one file with the second number. |
| Text.DecimalReads | server/src/app_photos.cpp:104 | The part number in a stored name reads back as that number. |
| Gallery.UploadRows | server/src/app_photos.cpp:155-178 | An upload keeps every row and adds one for each file, with ids and sort orders counting on from the last; the first file becomes the primary that photo_ref names if and only if the item had none. |
| PhotoDirectory.Tables.InsertRows | server/src/app_photos.cpp:155-178 | The insert loop makes the first new row primary only when the item had no primary, and sets photo_ref with it. |
| Gallery.UploadOrder | server/src/app_photos.cpp:155-178 | The files become rows of the item in the order of the upload, and their sort orders rise above those of every photo the item had. |
| Gallery.UploadKeeps | server/src/app_photos.cpp:155-178 | Every upload keeps the gallery consistent. |
| PhotoDirectory.Tables.HandleUpdate | server/src/app_photos.cpp:185-216 | The update route changes caption, primary flag and sort order, each when asked to. |
| Gallery.UpdateRows | server/src/app_photos.cpp:185-216 | An update of an item's own photo changes that row as asked, clears the item's other primary flags and sets photo_ref if it becomes primary, and touches no other field. |
| Gallery.MakePrimaryExact | server/src/app_photos.cpp:185-216 | Making a photo primary keeps the gallery consistent exactly when the photo is the item's own, or nothing of the item is there to lose. |
| Gallery.LostPrimary | server/src/app_photos.cpp:185-216 | A concrete case where it does not: a photo id that does not exist costs the item its primary. |
| PhotoDirectory.Tables.HandleDelete | server/src/app_photos.cpp:219-249 | The delete route removes the file by its name, then the row, and after a primary promotes the first photo by sort order and id, or blanks photo_ref. |
| Gallery.DeletePromotes | server/src/app_photos.cpp:219-249 | After a primary is deleted, the remaining row of the item with the least sort order, and the least id among those, becomes the primary that photo_ref names; every other row and field stays. Without such a row photo_ref is blanked. |
| Gallery.DeletePlain | server/src/app_photos.cpp:219-249 | Deleting another photo takes its row and changes nothing else. |
| Gallery.DeleteExact | server/src/app_photos.cpp:219-249 | Deleting keeps the gallery consistent exactly when the photo is not another item's primary. |
| PhotoDirectory.Tables.HandleUpload | server/src/app_photos.cpp:129-178 | The upload route writes its files in order, later ones over earlier ones of the same name, and then inserts the rows; without files it changes nothing and answers 400. |
| PhotoDirectory.ActExact | server/src/app_photos.cpp:47-250 | After a request every photo finds the content that was uploaded for it if and only if the request was harmless: it writes over no other photo's file with other content, and removes no file that another row names. |
| PhotoDirectory.RunIntactExact | server/src/app_photos.cpp:47-250 | A run is one of harmless requests if and only if its requests are well-formed and every photo keeps its content all the way. |
| PhotoDirectory.AlwaysIntactMeans | server/src/app_photos.cpp:47-250 | All the way means after every prefix of the run. |
| PhotoForms.FormHarmlessIff | server/src/app_photos.cpp:47-250 | The upload of a form is harmless if and only if no part it stores takes the name of a photo whose file holds something else. |
| PhotoForms.SecondFormHarmlessIff | server/src/app_photos.cpp:47-250 | Whatever is there already, the second of two forms for an item is harmless if and only if at no position both store a part of the same form and extension with different content, and it takes no older photo's name with other content. |
| PhotoDirectory.FreshRunIntact | server/src/app_photos.cpp:47-250 | Over every run of harmless requests from empty tables each photo still shows what was uploaded for it. |
| PhotoDirectory.FileLost | server/src/app_photos.cpp:47-250 | Two uploads under one name and a deletion of the first leave the second photo without a file. |
| Gallery.StepExact | server/src/app_photos.cpp:47-250 | A request keeps the gallery consistent if and only if it was safe, a condition on the tables before it. |
| Gallery.RunExact | server/src/app_photos.cpp:47-250 | A run is one of safe requests if and only if its requests are well-formed and the gallery stays consistent all the way. |
| Gallery.AlwaysMeans | server/src/app_photos.cpp:47-250 | All the way means after every prefix of the run. |
| Gallery.FreshRun | server/src/app_photos.cpp:47-250 | From empty tables, after every safe run an item has exactly one primary, named by photo_ref, or no photos and a blank photo_ref. |
| QuotedPrintable.QpEncode | server/src/smtp.cpp:66-82 | The loop with its mutable column writes exactly the encoding that the round trip and the line limit are proved of. |
| QuotedPrintable.QpRoundTrip | server/src/smtp.cpp:66-82 | A decoder of RFC 2045 section 6.7, which takes CR and LF only as a pair, gives back the text if its CR and LF are paired, and fails otherwise, from any starting column. |
| QuotedPrintable.ConformsIffPaired | server/src/smtp.cpp:66-82 | The output conforms to that section, a decoder accepting it and its lines between CRLFs fitting in 76 characters, if and only if CR and LF are paired in the text. |
| QuotedPrintable.LoneLineFeed | server/src/smtp.cpp:66-82 | For one: a lone LF goes through as it is and no conforming decoder takes it back. |
| QuotedPrintable.EncodedLinesFit | server/src/smtp.cpp:66-82 | For every text, every stretch of the output without CR or LF fits in 76 characters, counted from the column the encoder starts at. |
| QuotedPrintable.StretchLimit | server/src/smtp.cpp:66-82 | So for every text no stretch of a body's output without CR or LF is longer than 76. |
| QuotedPrintable.LineLimit | server/src/smtp.cpp:66-82 | Where CR and LF are paired, a line of the output from after one CRLF up to the next is at most 76 bytes, the sign of a soft break included. |
| QuotedPrintable.FilledLines | server/src/smtp.cpp:66-82 | The output is the text's units, as itself or = and two digits of 0-9A-F, filled line by line: a soft break stands only where a unit and the sign after it would make more than 76 characters. |
| QuotedPrintable.ShortAsIs | server/src/smtp.cpp:66-82 | At most 75 printable characters other than the equals sign are written as they are. |
| QuotedPrintable.NoBareBlanks | server/src/smtp.cpp:66-82 | No space or tab appears bare in the output, so none can be stripped on the way. |
| Settlements.SelectedByDay | server/src/main.cpp:208-250 | In days alone: a tick can select a counter sale made on UTC day D if and only if D < C, and a marketplace sale if and only if D <= C, where C is the local day that lies the grace period back. |
| SaleDates.TextOrderIff | server/src/db.cpp:153 | Comparing the stored texts, a date or a date and time, is comparing the numbers the settlement model uses for them, for all years of four digits. |
| SaleDates.DatesGrow | server/src/db.cpp:153 | Calendar dates, leap years included, grow with the day's number. |
| SaleDates.StampsStored | server/src/db.cpp:153 | Those numbers are: for a counter sale day and second of the clock, for a marketplace sale the day alone, for a cutoff the day alone. |
| Settlements.Database.WakeUp | server/src/main.cpp:208-271 | A wake-up at its hour gives the dealers with due sales their turn one after another, each seeing the settlements before it; at any other hour nothing happens. |
| Settlements.SummedOnce | server/src/main.cpp:208-271 | Over every run whatsoever, no sale goes into the sums of two settlements. |
| Settlements.SummedForGood | server/src/main.cpp:208-271 | With enough grace, the sales summed for a settlement when it was made are exactly those it settles ever after. |
| Settlements.SomePayer | server/src/main.cpp:208-271 | Every sale that is kept out of later settlements was settled by one. |
| Settlements.Database.SettleDealer | server/src/main.cpp:208-271 | The turn of one dealer: nothing when there is nothing due or the total reads as 0, else one pending settlement. |
| Settlements.SelectedArePaid | server/src/main.cpp:208-271 | The settlement a turn adds settles exactly the sales its query selected; its period runs from the first to the last of them and ends at or before the cutoff. |
| Settlements.TickComplete | server/src/main.cpp:208-271 | After a wake-up at its hour no sale at or before the cutoff is unsettled, except those of a dealer skipped for a total shown as 0. |
| Settlements.TickIdempotent | server/src/main.cpp:208-271 | A second wake-up at the same moment does nothing. |
| Settlements.StepKeeps | server/src/main.cpp:223-271 | Sales, ticks and payment marks each keep the ledger of what was summed true, and with enough grace no settlement ever comes to settle a sale beyond its entry. |
| Settlements.RunConserves | server/src/main.cpp:223-271 | Over every run with enough grace, each settlement's total_sales and total_fees are the sums over the sales it settles, and total_sales = total_fees + net_due. |
| Settlements.DealerTotals | server/src/main.cpp:223-271 | A dealer's settlements add up to the net proceeds of exactly that dealer's settled sales. |
| Settlements.FeesTakenTwice | server/src/main.cpp:223-271 | Over every run, net_due is the price of the sales summed less twice their fees; it is price less fees if and only if the fees sum to 0. |
| Settlements.SameDaySaleLost | server/src/main.cpp:223-271 | At any tick whose cutoff reaches the UTC day of new sales, a second marketplace sale that day counts as settled without ever being paid for. |
| Settlements.ConservedIffGrace | server/src/main.cpp:223-271 | Money is conserved over every run if and only if at every acting hour the local cutoff lies before the UTC day that new sales are dated. |
| Settlements.FixedZone | server/src/main.cpp:223-271 | In a fixed time zone that holds if and only if grace_days >= 1 - (3600 * check_hour - zone) / 86400, rounded down: one day suffices only where local time is ahead of UTC by no more than check_hour hours. |
| Settlements.TwoDaysAlways | server/src/main.cpp:223-271 | A grace period of two days is enough whatever the zone, daylight saving included. |
| Settlements.SaleKeeps | server/src/app_sales.cpp:91-105 | A new sale leaves every ledger entry as it is, and joins no earlier settlement if those end before its day. |
| Settlements.PaidKeeps | server/src/server.cpp:161-166 | Marking a settlement paid changes neither what it settles nor any sum. |
| BoothRent.Database.BillMonth | server/src/main.cpp:134-157 | The loop over active rentals has the effect of billing each in turn, reading the invoices written so far. |
| BoothRent.TickBills | server/src/main.cpp:134-157 | A tick bills exactly the active rentals without an invoice for the month, each with one payment and one invoice, and nothing else. |
| BoothRent.BilledTotals | server/src/main.cpp:134-157 | A month's billing adds the same sum to invoices and to payments: the rates of the rentals not invoiced before. |
| BoothRent.MadeAtMostOnce | server/src/main.cpp:134-157 | Over every run with rental edits and manual invoices, the collector makes at most one invoice for a rental and period. |
| BoothRent.Database.ChargeLate | server/src/main.cpp:160-181 | The loop over late payments has the effect of charging each row in turn. |
| BoothRent.ChargeEffect | server/src/main.cpp:160-181 | Exactly the month's pending payments turn overdue with their late fee; every other row, and every invoice, stays. |
| BoothRent.NotPendingStays | server/src/main.cpp:160-181 | A payment that is not pending never becomes pending again, and no tick touches it. |
| BoothRent.ChargedAtMostOnce | server/src/main.cpp:160-181 | Over every run each payment is turned overdue, and given its late fee, at most once. |
| BoothRent.ChargedWhenMade | server/src/main.cpp:160-181 | A payment that a wake-up has just made is charged its late fee by the same wake-up if and only if invoice_day > due_day + grace_days. |
| BoothRent.BilledHasRow | server/src/main.cpp:160-181 | Every rental that a tick finds billable gets such a payment. |
| BoothRent.OverdueAmount | server/src/main.cpp:160-181 | Charging a pending payment of the month sets its late fee to pct hundredths of the rate of today and its amount to that rate and the fee: that is base plus fee if and only if the rate is still the base, and the amount asked before plus fee if and only if that amount was the rate of today, so a discount or an earlier fee is lost. |
| BoothRent.BaseIsRate | server/src/main.cpp:160-181 | Over every run, a payment's base is the rate its rental had when the payment was written. |
| BoothRent.OverdueSinceWriting | server/src/main.cpp:160-181 | So over every run the collector asks base plus fee if and only if the rate is what it was when the payment was written. |
| BoothRent.InvoicesNeverOverdue | server/src/main.cpp:160-181 | No run ever marks a booth invoice overdue, because the collector leaves payment_id empty. |
| BoothRent.Database.WakeUp | server/src/main.cpp:132-183 | A wake-up bills only at its hour on the invoice day, and charges only at its hour after due day and grace days. |
| BoothRent.StepKeeps | server/src/app_business.cpp:251-384 | The rental, payment and invoice routes keep ids unique and invoices unlinked. |
| RateLimiter.Limiter.RateLimited | server/src/app_auth.cpp:29-40 | The verdict is that of the full history of accepted attempts, exactly one attempt is recorded when accepted, and no other address changes. |
| RateLimiter.StoredIsEnough | server/src/app_auth.cpp:29-40 | With a clock that does not run back, the pruned list shows the same recent attempts as the full history. |
| RateLimiter.RefusedIff | server/src/app_auth.cpp:29-40 | An attempt is refused if and only if the closed window that ends with it holds the limit of accepted attempts already. |
| RateLimiter.WindowBound | server/src/app_auth.cpp:29-40 | No closed window holds more accepted attempts from one address than the limit. |
| RateLimiter.RefusalLeavesNoTrace | server/src/app_auth.cpp:29-40 | Leaving a refused attempt out of the history changes no later verdict for any address, so refusals never prolong a block. |
| RateLimiter.AddressesIndependent | server/src/app_auth.cpp:29-40 | What is accepted from an address depends on the calls from that address alone. |
| Router.Router.Add | server/src/router.cpp:6-19 | Inserting in place keeps the table the stable partition of the registrations into literal and parameterised. |
| Router.TableIsPermutation | server/src/router.cpp:6-19 | No route is lost or duplicated. |
| Router.Router.SplitPath | server/src/router.cpp:21-39 | Reading piece by piece keeps exactly the nonempty pieces between slashes. |
| Router.Router.Match | server/src/router.cpp:21-39 | A path matches exactly when segments agree one by one, and the map then holds the captured segments. |
| Router.CapturedKeys | server/src/router.cpp:21-39 | The names in that map are exactly those of the pattern's parameters. |
| Router.LiteralMatch | server/src/router.cpp:21-39 | A pattern without parameters matches exactly the paths with its own segments. |
| Router.DistinctNamesRebuild | server/src/router.cpp:21-39 | With distinct parameter names the captures always rebuild the path. |
| Router.WrittenMatchIff | server/src/router.cpp:21-39 | A pattern written as pieces with slashes is matched by exactly the written paths of as many pieces that have any nonempty value where the pattern has a colon first, and the pattern's own piece elsewhere, under its own verb. |
| Router.WrittenCaptures | server/src/router.cpp:21-39 | And each parameter with a name of its own is captured with its value. |
| Router.CapturesRebuildPath | server/src/router.cpp:21-39 | Putting the captures back into the pattern gives the path's segments if and only if repeated parameter names met equal segments. |
| Router.Router.Dispatch | server/src/router.cpp:41-51 | Runs the first route of the table that matches, with its captures; none is found exactly when none matches. |
| Router.FirstOfKind | server/src/router.cpp:41-51 | Within each kind the first match of the table is the first registered. |
| Router.DispatchOrder | server/src/router.cpp:41-51 | After any registrations, dispatch picks the first registered matching literal if there is one, else the first registered matching parameterised route. |
| Pson.StripComment | server/src/pson.cpp:13-24 | The comment loop keeps a line up to the first # outside quotes. |
| Pson.StripEntry | server/src/pson.cpp:13-24 | A # inside a quoted value is kept. |
| Pson.CommentIgnored | server/src/pson.cpp:13-24 | A comment after a line that ends outside quotes changes nothing. |
| Pson.BlankIgnored | server/src/pson.cpp:13-24 | Blank lines and lines of comment only change nothing. |
| Pson.IdleLineAnywhere | server/src/pson.cpp:13-24 | A blank or comment line can be added anywhere in a file, whatever else it holds, without changing what is loaded. |
| Pson.Reader.LoadText | server/src/pson.cpp:8-45 | The line loop over section and map has the effect of its lines one by one, on top of what was loaded before. |
| Pson.EntryLoads | server/src/pson.cpp:8-45 | A printed entry is stored under its section and key with its value. |
| Pson.SpacedEntryLoads | server/src/pson.cpp:8-45 | With any blanks and tabs around its equals sign it is stored the same. |
| Pson.LoadRoundTrip | server/src/pson.cpp:8-45 | Loading a printed configuration gives exactly its settings. |
| Pson.GetAfterLoad | server/src/pson.cpp:47-53 | Every value of a printed configuration is found under its section and key, whatever the default. |
| Pson.DefaultAfterLoad | server/src/pson.cpp:47-66 | For every section and key that a configuration does not print, the default comes back, as text and as truth value. |
| Pson.PaddingIgnored | server/src/pson.cpp:24-27 | Blanks, tabs and carriage returns at either end of a line change nothing, so files with CRLF line ends load the same. |
| Pson.BoolAfterLoad | server/src/pson.cpp:61-66 | A printed true, 1, yes, false, 0 or no is read as what it says, and any other value as the default. |
| LogTail.RenderShape | server/src/logger.cpp:54 | A written line is timestamp and level in brackets with a blank after each, and then the message. |
| LogTail.ParseRender | server/src/logger.cpp:54-84 | Parsing a written line recovers timestamp, level and message, when timestamp and level hold no closing bracket and nothing breaks the line. |
| LogTail.FillRing | server/src/logger.cpp:94-101 | The bounded queue ends up with the last 8n lines that are not empty. |
| LogTail.ReadTail | server/src/logger.cpp:86-112 | The backward loop with its filter and its early stop returns the first n matches of the ring, newest first. |
| LogTail.ReadsBackIff | server/src/logger.cpp:86-112 | A file of any entries reads back exactly if and only if no timestamp or level holds a closing bracket and no field breaks the line: the condition of the rows on written files. |
| LogTail.BrokenMessage | server/src/logger.cpp:86-112 | For one: a message with a line break comes back as two entries, the newer a raw line. |
| LogTail.TailGood | server/src/logger.cpp:86-112 | The tail of any text whatsoever holds only entries of that kind. |
| LogTail.TailOfFile | server/src/logger.cpp:86-112 | From a written file of such entries come the first n level matches, newest first, among the last 8n entries. |
| LogTail.TailPlaces | server/src/logger.cpp:86-112 | Of the last 8n entries exactly those of the level come back, each after as many as are newer, until there are n. |
| LogTail.TailOfLevel | server/src/logger.cpp:86-112 | Whatever the file holds, a tail with a level has entries of that level only. |
| LogTail.UnfilteredTail | server/src/logger.cpp:86-112 | Without a level, of such entries the last min(n, count) entries, newest first, with all fields. |
| LogTail.FilteredTail | server/src/logger.cpp:86-112 | With a level, on such entries, the result is always a prefix of the newest matches of the whole file, and complete if and only if the last 8n entries hold n matches or all there are. |
| Escape.EscapeLoop | server/src/util.cpp:55-67 | The appending loop writes exactly the escaped text that the lexer lemmas are about. |
| Escape.EscapeRoundTrip | server/src/util.cpp:55-67 | A lexer of RFC 8259 section 7 stops exactly at the closing quote, whatever follows, and recovers the text up to the masked control characters. |
| Escape.EscapeLossless | server/src/util.cpp:55-67 | Nothing is lost if and only if the text has no octet below 32 other than 9, 10 and 13. |
| Escape.PrintedAsIs | server/src/util.cpp:55-67 | A text without control characters, quotes and backslashes is not changed. |
| Url.DecodeLoop | server/src/util.cpp:40-53 | The loop that also moves its own index decodes as UrlDecode, with malformed and cut-off escapes read as the stream reads them. |
| Url.PercentDecodesIff | server/src/util.cpp:40-53 | A percent-encoding of RFC 3986 section 2.1, whichever characters were escaped, is decoded to what it encodes if and only if it keeps no plus sign as itself. |
| Url.PlusReadAsSpace | server/src/util.cpp:40-53 | For one: a+b is an encoding of a+b and is read as a space between two letters. |
| Url.MalformedEscapes | server/src/util.cpp:40-53 | How malformed escapes are read: no digit as 0, a sign and a digit as a negative number, one digit as itself, leading space and tabs skipped, a cut-off escape as it is. |
| Text.HexDigits | server/src/util.cpp:40-53 | The digits are those of either case and no others. |
| Url.DecodeInverts | server/src/util.cpp:40-53 | Decoding inverts every form encoding, in which a plus sign stands for a space. |
| Url.ParamOfQuery | server/src/util.cpp:105-116 | On every query: the answer is the decoded rest of the first text between ampersands that holds the key and an equals sign, wherever in it, and empty when none does. |
| Url.OwnPairIff | server/src/util.cpp:105-116 | The search for the key of a pair stops at that pair if and only if no earlier pair contains the key and an equals sign, in its name or in its value. |
| Url.KeyPlaces | server/src/util.cpp:105-116 | In a pair a key is found at the end of the name and wherever the value holds it with an equals sign, and nowhere else. |
| Url.ParamOfPairs | server/src/util.cpp:105-116 | So the answer comes from the first pair whose name ends with the key, with the whole value, or whose value holds the key and an equals sign, with what follows. |
| Url.ValueTakesPlace | server/src/util.cpp:105-116 | For one: q=from=1&from=2 answers from with 1, though no earlier name ends with it and no value keeps a plus sign; and q=from=1 answers the absent from with 1. |
| Url.ParamRoundTrip | server/src/util.cpp:105-116 | When no earlier pair contains the key and an equals sign, the text that was form-encoded under the key comes back. |
| Url.PercentParamIff | server/src/util.cpp:105-116 | Then a text that was percent-encoded comes back if and only if its value keeps no plus sign as itself. |
| Url.AlwaysRightIff | server/src/util.cpp:105-116 | The key of a pair is answered with that pair's own value, whatever values without ampersands are sent, if and only if the pair is the first. |
| Url.AlwaysEmptyIff | server/src/util.cpp:105-116 | A key is answered with the empty text, whatever values without ampersands are sent, if and only if the query has no pairs. |
| Url.OnlyAtNameEnd | server/src/util.cpp:105-116 | The case of values without an equals sign: there a key is found in a pair only at the end of its name, and there always. |
| Url.PlainParam | server/src/util.cpp:105-116 | In that case the answer is the decoded value of the first pair whose name ends with the key, and empty when there is none. |
| Url.PlainRoundTrip | server/src/util.cpp:105-116 | In that case the text form-encoded under a key comes back when no earlier name ends with the key. |
| Url.PlainPercentIff | server/src/util.cpp:105-116 | In that case too a percent-encoded text comes back if and only if its value keeps no plus sign as itself. |
| Url.PlainRightIff | server/src/util.cpp:105-116 | Over all values without an equals sign, a pair's key is always answered with its own value if and only if no earlier name ends with it. |
| Url.PlainEmptyIff | server/src/util.cpp:105-116 | Over all values without an equals sign, a key is always answered with the empty text if and only if no name ends with it. |
| Url.LongerNameWins | server/src/util.cpp:105-116 | For one: the value under surfrom is the answer for from. |

## Left out

- Sockets, TLS, sleeping loops, SQLite, file writes, the SMTP dialogue, printing and marketplace clients: input and output.
- Pages, `app.js`, `api.js`, translations, and the SVG form of a label: user interface.
- `web/js/barcode.js`: its patterns are decimal literals printed in base 2, so the bars are not the Code 128 patterns and no Code 128 property holds.
- Plain create, read, update and delete routes and the discount cascade: single-branch facts or SQL sums.
- Rounding of money by `double` and `std::to_string`: cents and real numbers are exact.
- Upload of a raw body, the caption guessed from the body before the loop (a parameter here), and the reading of the boundary from the header.
- Routes that write photo_ref directly (`server/src/app_items.cpp:306-363`): outside the gallery invariant.
- Edits of a sale's date or price, changes of an item's owner, deleted sales, and cancelled settlements: no run contains them.
- Galleries filled by the older single-photo routes: runs start from empty tables.
- Frames of 2^63 bytes or more, which RFC 6455 section 5.2 forbids.
- Words of more than 255 bytes in the distance and repair lemmas: they are longer than the code.
- Forms that break RFC 2046: a delimiter inside a content, an empty header line, a CR or LF inside one, no part at all, or a delimiter without a boundary name. For those only the general lemmas on any body are stated.
- Header fields of a form part with backslash escapes, comments or blanks other than one after each semicolon; the full outcome of an upload is stated for fields with `name` and `filename` parameters, and for others when they count as photo or caption.
- Configuration values printed without quotes, or with blanks at their ends, which the reader trims away.
- `get_int`, `get_double`: their number syntax is that of the C++ library.
- Log rotation, the WebSocket handshake headers, and the escaping of log lines for the stream.
- Request parsing before the router, and the JSON of replies.
