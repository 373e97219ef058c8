# Portfolio content manager: compression dispatch, ids and names

This project models in Dafny the core of the desktop tool that edits the
content of a portfolio web site (C#, `ContentManagement`). It covers:

- **TinifyClient**: the quota-aware compression client. An ordered list of
  API keys is walked by a cursor that only moves forward. A counter tracks
  the compressions left on the current key. A pending-task counter is paired
  with the `AllDone` drain signal. `Fit` counts a request as pending, picks a
  key inside a gate, sends the request and counts it finished on every path.
- **ImageCompressor**: the ledger of item ids already handled. The decision
  `OptimizeImageAsync` takes is one of: already handled, unreadable, a GIF
  (exempt), or send to `Fit` with the preview box or the image box.
- **ExtensionMethods.ToHyphenCase**: the character-by-character rewrite of
  a title into a lower-case, hyphen-separated file name.
- **Registrar**: allocation of random ids that collide with no registered id.
- **MarginConverter**: the validator for "Top Right Bottom Left" margins.
- **PersistenceManager**:
  - the global id counter;
  - id and parent assignment over the tree of preview and portfolio items;
  - image names and child folders;
  - the child-image rewrite when a preview item is renamed;
  - the branches of `SaveImage`.
- **ProjectItem**: an id handed out on first read, setters that store
  trimmed text, and the image size.

Modules:

- `Tinify`, `Compressor`, `Hyphenation`, `Registration`, `Margins`,
  `Persistence` and `Items` follow the C# files one for one.
- `Wrappers` holds `Option` and `Result`.
- `Chars` holds the ASCII character classes and the `Trim`/`ToLower`
  helpers the code relies on.

C# static state is modelled as one object:

- the `TinifyClient` statics are a `TinifyClient` instance;
- the `PersistenceManager` statics are a `PersistenceManager` instance.

The loops of the source are methods with loop invariants, each proved
against a function that specifies it:

- the key rotation against `Select`;
- the hyphen-case builder against `Build`;
- the id assignment against `Slot` and `Position`.

The remote service, randomness, `Guid`, `Path.GetExtension` and the file
system are parameters. The operations that would touch files return the
file actions they would take, in order.

Nothing here has been executed; every statement below is a proved contract.

## Model

| member | source | states |
|---|---|---|
| Tinify.SelectFastPath | ContentManagement/TinifyClient.cs:60-66 | With a key still in range and a counter that stays non-negative after the decrement, the loop returns at once. The counter is decremented by exactly one; the cursor and the key are unchanged. |
| Tinify.SelectAfterLastKey | ContentManagement/TinifyClient.cs:60-84 | Once the cursor equals the number of keys, every call fails at once, whatever the counter holds: the loop guard is tested before the fast path. |
| Tinify.SelectBounds | ContentManagement/TinifyClient.cs:60-84 | The cursor only moves forward and never passes the end of the key list. A served request leaves the counter non-negative. An unserved one has exhausted the keys. The loop runs at most once per remaining key. |
| Tinify.SelectFirstUsable | ContentManagement/TinifyClient.cs:68-81 | When the cursor moves, every key it passed failed validation, reported no count or was overdrawn. The key set is the one just before the cursor. The request is served exactly when that key validates with quota left, and the counter is then the limit minus its usage, less one. When the cursor does not move, the key is unchanged. |
| Tinify.FastPathOnlyFirst | ContentManagement/TinifyClient.cs:62-81 | From a negative counter a served request always has moved the cursor: a spent key is never revisited. |
| Tinify.SelectSkipsSpentKey | ContentManagement/TinifyClient.cs:68-81 | Two keys, the first used up to the limit of 500 and the second used 495 times: the second key is set, the counter becomes 4, and the loop ran twice. |
| Tinify.TinifyClient.constructor | ContentManagement/TinifyClient.cs:18-22 | Initially the cursor and the counter are 0, no key is set, nothing is pending and the drain signal is set. |
| Tinify.TinifyClient.IncrementPending | ContentManagement/TinifyClient.cs:87-92 | The pending count goes up by one and the drain signal is reset. |
| Tinify.TinifyClient.DecrementPending | ContentManagement/TinifyClient.cs:94-101 | The pending count goes down by one. The drain signal is set when the count reaches zero and is left as it was otherwise. The pairing of signal and zero count is kept. |
| Tinify.TinifyClient.SetApiKey | ContentManagement/TinifyClient.cs:58-85 | The loop ends in exactly the state, the outcome and the number of rounds that `Select` gives for the state it started from. The cursor stays between its old value and the key count. A normal return leaves the counter non-negative. A failure (the quota exception) leaves the cursor at the end. |
| Tinify.TinifyClient.Fit | ContentManagement/TinifyClient.cs:24-56 | Fit leaves the pending count and the drain signal as it found them and the gate released, on every path. When no key serves, it fails with the quota error and sends nothing. Otherwise it sends exactly one request with the image and the box, and returns what the exchange returns or a transport failure. |
| Compressor.Decide | ContentManagement/ImageCompressor.cs:49-67 | The branches in source order, each in both directions. An unforced request for an id in the ledger is already handled. Otherwise a payload that cannot be decoded fails, a GIF is exempt, and any other format is sent to Fit. |
| Compressor.ForceIgnoresLedger | ContentManagement/ImageCompressor.cs:49 | With `force` set the ledger is not consulted: the decision is the same for any ledger and is never "already handled". |
| Compressor.ImageCompressor.constructor | ContentManagement/ImageCompressor.cs:21-24 | The ledger starts empty. |
| Compressor.ImageCompressor.Box | ContentManagement/ImageCompressor.cs:54-55 | A preview image is fitted into the preview box, any other image into the image box. |
| Compressor.ImageCompressor.AllDone | ContentManagement/ImageCompressor.cs:26 | The compressor's drain signal is the client's: while the client's pairing invariant holds, it is set exactly when no compression is pending. |
| Compressor.ImageCompressor.RegisterIds | ContentManagement/ImageCompressor.cs:28-34 | The ledger becomes the old ledger together with every given id. |
| Compressor.ImageCompressor.RemoveId | ContentManagement/ImageCompressor.cs:36-39 | Exactly that id is removed and nothing else changes. |
| Compressor.ImageCompressor.RegisteredIds | ContentManagement/ImageCompressor.cs:41-44 | Reports the current ledger. |
| Compressor.ImageCompressor.OptimizeImageAsync | ContentManagement/ImageCompressor.cs:46-74 | An unforced request for an id already in the ledger returns the bytes untouched; the ledger and the client are unchanged. A GIF adds the id and returns the bytes without calling Fit. An unreadable payload fails without touching either. Otherwise Fit is called with the preview box or the image box: on success the id is added and the compressed bytes are returned; on failure the ledger is unchanged. The only id ever added is `itemId`, and after any normal return it is in the ledger. |
| Compressor.LedgerScenario | ContentManagement/ImageCompressor.cs:49-73 | A fresh compressor with 17 registered, preview box 400x300 and image box 800x600: an unforced request for 17 returns the bytes unchanged and marked as not compressed; a forced request for 17 then returns, marked as compressed, what the service gives for the image box. |
| Hyphenation.ToHyphenCase | ContentManagement/ExtensionMethods.cs:11-54 | Null and the empty string come back unchanged. Any other input gives the hyphen-cased string defined by the builder `Build`, trimmed of '-' and lower-cased. |
| Hyphenation.HyphenCaseShape | ContentManagement/ExtensionMethods.cs:17-53 | For every input, the result has no leading or trailing '-', no "--" and no upper-case letter. Past its first character it holds only letters, digits and '-'. The first character of the input is not filtered; see Findings. |
| Hyphenation.HyphenCaseLength | ContentManagement/ExtensionMethods.cs:17-51 | The result is at most twice as long as the input. |
| Hyphenation.HyphenCaseKeeps | ContentManagement/ExtensionMethods.cs:19-53 | The letters and digits of the result are exactly those of the input, lower-cased, in input order: each appears exactly once. |
| Hyphenation.WordBoundary | ContentManagement/ExtensionMethods.cs:34-50 | For two letters or digits in a row, the second is appended alone when they stay in one word and after a hyphen otherwise. They stay together when both are lower case, both capitals or both digits. A capital followed by a lower-case letter stays together only when the capital starts the string or does not follow another capital. |
| Hyphenation.AfterSeparator | ContentManagement/ExtensionMethods.cs:24-35 | After a separator, a letter or digit is appended alone, and a further separator adds nothing. |
| Hyphenation.BeforeCapital | ContentManagement/ExtensionMethods.cs:38-39 | After a capital, the builder holds a hyphen just before it exactly when the character before the capital is not a capital. |
| Hyphenation.HyphenCasePlainWord | UnitTestProject/ExtensionTests.cs:13 | "abc" gives "abc". |
| Hyphenation.HyphenCaseOuterSeparators | UnitTestProject/ExtensionTests.cs:14 | "--abc--def--" gives "abc-def". |
| Hyphenation.HyphenCaseCapitalWord | UnitTestProject/ExtensionTests.cs:16 | "ABC" gives "abc". |
| Hyphenation.HyphenCaseCamel | UnitTestProject/ExtensionTests.cs:17 | "abcDefGhi" gives "abc-def-ghi". |
| Hyphenation.HyphenCasePunctuation | UnitTestProject/ExtensionTests.cs:15 | "abc,def.ghi;jkl mno" gives "abc-def-ghi-jkl-mno". |
| Hyphenation.HyphenCaseDigits | UnitTestProject/ExtensionTests.cs:18 | "abc1def2ghi" gives "abc-1-def-2-ghi". |
| Hyphenation.HyphenCaseDigitRuns | UnitTestProject/ExtensionTests.cs:19 | "abc123ghi456" gives "abc-123-ghi-456". |
| Hyphenation.HyphenCaseLeadingDigits | UnitTestProject/ExtensionTests.cs:20 | "123abc456ghi" gives "123-abc-456-ghi". |
| Hyphenation.HyphenCaseCapitalRuns | UnitTestProject/ExtensionTests.cs:21 | "abcDEFghiJKL" gives "abc-def-ghi-jkl". |
| Hyphenation.HyphenCaseCapitalStart | UnitTestProject/ExtensionTests.cs:22 | "ABCdefGHIjkl" gives "abc-def-ghi-jkl". |
| Hyphenation.LeadingCharacter | ContentManagement/ExtensionMethods.cs:17-53 | The first character of a non-empty result is a letter or digit, or else the input's own first character. An input that starts with a character that is neither a letter, a digit nor '-' keeps that character at the front of the result. |
| Hyphenation.SlashOnlyFirst | ContentManagement/ExtensionMethods.cs:17-53 | A '/' can appear in the result only as its first character, and only when the input starts with '/'. |
| Hyphenation.LeadingSeparatorKept | ContentManagement/ExtensionMethods.cs:17-53 | As written: "/abc" gives "/-abc". The leading '/' is neither filtered nor trimmed. |
| Hyphenation.FixedAgrees | ContentManagement/ExtensionMethods.cs:17 | The corrected form agrees with the code as written on every input whose first character is a letter, digit or hyphen. |
| Hyphenation.HyphenCaseFixed | ContentManagement/ExtensionMethods.cs:17-53 | The corrected form: for every input, no leading or trailing '-', no "--", and every character, the first included, a letter, a digit or '-', never a capital. |
| Hyphenation.FixedKeeps | ContentManagement/ExtensionMethods.cs:19-53 | The corrected form keeps exactly the input's letters and digits, lower-cased, in order. |
| Hyphenation.LeadingSeparatorFixed | ContentManagement/ExtensionMethods.cs:17 | The corrected form turns "/abc" into "abc". |
| Registration.Draw | ContentManagement/Registrar.cs:35 | Every draw lies in [1000000, 9999999): the upper bound is exclusive. |
| Registration.Registrar.constructor | ContentManagement/Registrar.cs:10-13 | The registry starts empty. |
| Registration.Registrar.RegisterIds | ContentManagement/Registrar.cs:15-21 | The registry becomes the old registry together with every given id. |
| Registration.Registrar.RegisteredIds | ContentManagement/Registrar.cs:23-26 | Reports the current registry. |
| Registration.Registrar.NextId | ContentManagement/Registrar.cs:28-41 | The id returned was not registered before. The registry becomes the old one plus that id. The id lies in the draw range, and it is the first draw in sequence that was not registered. |
| Registration.RegisterTwice | ContentManagement/Registrar.cs:15-21 | Registering the same ids again changes nothing. |
| Registration.SuccessiveIdsDiffer | ContentManagement/Registrar.cs:28-41 | Two successive allocations give two different ids, neither registered before, and both end up registered. |
| Margins.CanConvertFrom | ContentManagement/MarginConverter.cs:12-15 | True for a string source; any other source gets the base converter's answer. |
| Margins.ConvertFrom | ContentManagement/MarginConverter.cs:17-38 | Null and non-strings go to the base converter. A blank string gives "0 0 0 0". Any other string comes back unchanged, untrimmed, exactly when its trimmed form contains the margin pattern somewhere, and is a format error exactly when it does not. |
| Margins.ConvertTo | ContentManagement/MarginConverter.cs:40-50 | A null destination is an argument-null error. The string destination returns the value itself. Any other destination goes to the base converter. Each holds in both directions. |
| Margins.MatchSpec | ContentManagement/MarginConverter.cs:31-33 | The unanchored scan succeeds exactly when four groups of one to four digits, separated by single spaces, occur somewhere. |
| Margins.DefaultMatches | ContentManagement/MarginConverter.cs:10-31 | The default margin "0 0 0 0" has the format. |
| Margins.TrimKeepsOccurs | ContentManagement/MarginConverter.cs:33-37 | An occurrence in the trimmed string is an occurrence in the untrimmed string returned. |
| Margins.AcceptedHasFormat | ContentManagement/MarginConverter.cs:24-37 | Every value ConvertFrom accepts is a string that contains a margin in the format. |
| Margins.ConvertFromIdempotent | ContentManagement/MarginConverter.cs:17-38 | Converting an accepted value a second time gives it back unchanged. |
| Persistence.Trimmed | ContentManagement/ProjectItem.cs:38 | A trimming setter keeps null as null and stores the empty string for a blank value. Any other value is cut to the span from its first to its last character that is not white space: only outer white space goes. What is stored has nothing left to trim. |
| Persistence.TrimmedIdempotent | ContentManagement/ProjectItem.cs:35-64 | Setting a property to the value read from it changes nothing. |
| Persistence.PersistenceManager.constructor | ContentManagement/PersistenceManager.cs:17 | The counter starts at 0. |
| Persistence.PersistenceManager.NextId | ContentManagement/PersistenceManager.cs:19 | Pre-increment: each call returns the previous value plus one, which is also the new counter. The first call returns 1. |
| Persistence.PersistenceManager.AssignImageOwnerIds | ContentManagement/PersistenceManager.cs:124-136 | Each preview item, then each of its portfolio items, takes the next id in traversal order, at the position `Position` gives. Each portfolio item's parent becomes its preview item. The counter advances by the number of items. |
| Persistence.PersistenceManager.AssignFamily | ContentManagement/PersistenceManager.cs:129-134 | One pass of the outer loop: the preview item takes the next id, then its portfolio items take the following ones in order, each with the preview item as parent. |
| Persistence.PositionsDistinct | ContentManagement/PersistenceManager.cs:127-135 | The positions of the id assignment are pairwise different and lie between 1 and the number of items, so every item gets an id of its own above every id handed out before. |
| Persistence.CreateImageName | ContentManagement/PersistenceManager.cs:138-141 | With a null or empty subfolder the image name is the file name. Otherwise it is the subfolder, one '/', then the file name, each part intact. |
| Persistence.FolderOf | ContentManagement/PersistenceManager.cs:198 | The text before the first '/'. Without a '/' the Substring call fails with an out-of-range error. |
| Persistence.FolderOfImageName | ContentManagement/PersistenceManager.cs:138-141 | An image named into a subfolder without '/' gives that subfolder back. |
| Persistence.PreviewImageAtTop | ContentManagement/PersistenceManager.cs:138-141 | With a null or empty subfolder the image name is the file name itself. |
| Persistence.FirstImage | ContentManagement/PersistenceManager.cs:196 | The image of the first portfolio item whose image is non-empty, or none exactly when every image is empty. |
| Persistence.EvaluateChildFolderName | ContentManagement/PersistenceManager.cs:194-199 | With no preview item it fails with a null reference. With no child image it gives null. Otherwise it gives the folder of the first child image, and it fails exactly when that image has no '/'. |
| Persistence.FileStem | ContentManagement/PersistenceManager.cs:180-192 | A null or empty title or description gives the lower-case Guid. Any other text gives its ToHyphenCase form: exactly the text's letters and digits, lower-cased, in order, led by the text's own first character when that is neither a letter, a digit nor '-' (a leading '-' is trimmed away). |
| Persistence.FileStemShape | ContentManagement/PersistenceManager.cs:180-192 | A stem drawn from a title or description has no leading or trailing '-', no "--" and no capitals. Past its first character it holds only letters, digits and '-'. |
| Persistence.FileStemSlash | ContentManagement/PersistenceManager.cs:180-192 | A stem contains '/' only as its first character, copied from a title or description that starts with '/'. |
| Persistence.SlashTitle | ContentManagement/PersistenceManager.cs:180-199 | The title "/abc" gives the stem "/-abc". A child image named into that folder reads back as being in the folder "". |
| Persistence.ReplaceFolder | ContentManagement/PersistenceManager.cs:165 | An image in the old folder whose rest does not contain the old folder name plus '/' is moved to the new folder with its rest unchanged. |
| Persistence.RenamedChildFolder | ContentManagement/PersistenceManager.cs:160-166 | After the rename, such a child image lies in the new folder, and its folder evaluates to the new folder name. |
| Persistence.RenameChildImages | ContentManagement/PersistenceManager.cs:160-166 | Every child with an image has it rewritten, through the trimming setter. Children with empty images are untouched. Ids, descriptions and parents are unchanged. |
| Persistence.RenameOwnImage | ContentManagement/PersistenceManager.cs:148 | The item's image is moved to the stem of its title plus the old extension, at the top of the images folder. The item then holds that name through its trimming setter; its id and title are unchanged. |
| Persistence.RenameChildFolder | ContentManagement/PersistenceManager.cs:150-168 | With no children, or no child image, nothing changes and no folder is moved. When the first child image has no '/', the lookup fails and nothing changes. Otherwise the child folder is moved to the stem of the title and every child image is rewritten into it. |
| Persistence.RenamePreviewItemImage | ContentManagement/PersistenceManager.cs:143-169 | Without an image nothing happens and nothing fails. Otherwise the image is moved and renamed after the title's stem, and that move is kept among the actions in every later case. With no children or no child folder the method stops there. When the first child image has no '/', the folder lookup throws after that move: the failure is reported, the move is the only action, and no child image changes. Otherwise the child folder is renamed after the title's stem and every child image is rewritten into it. Ids, titles, descriptions and parents are unchanged. |
| Persistence.EvaluateOrCreateChildFolderName | ContentManagement/PersistenceManager.cs:219-230 | An existing child folder is returned with no file action. Without one, the folder named by the title's stem is returned together with the action that creates it. It fails exactly when the lookup fails. |
| Persistence.DeleteImage | ContentManagement/PersistenceManager.cs:254-265 | Nothing is deleted for a null or empty name. Otherwise exactly that one file is deleted. |
| Persistence.SaveImage | ContentManagement/PersistenceManager.cs:89-122 | An empty source path gives null, and an object of another type gives the empty string, before any file is touched. For a preview item the old image is deleted and the source is copied to the top folder under the title's name. For a portfolio item this happens in its child folder, which is created first if missing. The item's image name is returned. |
| Items.ProjectItem.constructor | ContentManagement/ProjectItem.cs:10-14 | A new item has id 0, no text and a zero size. |
| Items.ProjectItem.GetId | ContentManagement/ProjectItem.cs:20-27 | While the stored id is 0, reading it draws the manager's next id and stores it. Otherwise the stored id is returned and the manager is not asked. |
| Items.ProjectItem.SetId | ContentManagement/ProjectItem.cs:28 | The value is stored exactly. |
| Items.ProjectItem.SetImage | ContentManagement/ProjectItem.cs:35-39 | Stores the trimmed value; null stays null. |
| Items.ProjectItem.SetDescription | ContentManagement/ProjectItem.cs:44-48 | Stores the trimmed value; null stays null. |
| Items.ProjectItem.SetUrl | ContentManagement/ProjectItem.cs:52-56 | Stores the trimmed value; null stays null. |
| Items.ProjectItem.SetVideo | ContentManagement/ProjectItem.cs:60-64 | Stores the trimmed value; null stays null. |
| Items.ProjectItem.UpdateImageSize | ContentManagement/ProjectItem.cs:80-84 | Width and height become the size's; nothing else changes. |
| Items.ReadIdTwice | ContentManagement/ProjectItem.cs:18-27 | Two reads give the same non-zero id. Only the first read of an item without an id takes one from the manager. |
| Items.SetThenGet | ContentManagement/ProjectItem.cs:22-28 | A non-zero id that was set is what the getter returns, and no id is drawn. |
| Items.SetZeroThenGet | ContentManagement/ProjectItem.cs:22-28 | Setting the id to 0 makes the next read draw a fresh id. |
| Items.ReassignImage | ContentManagement/ProjectItem.cs:35-39 | Writing back the stored image changes nothing. A blank value is stored as the empty string, and null stays null. |

## Left out

- The Tinify library (`Validate`, `CompressionCount`, `FromBuffer`, `Resize`, `ToBuffer`) is represented by two parameters. `usage` gives each key's validation outcome and usage count. `exchange` gives the compression result or a transport failure. Each key is validated at most once, since the cursor never moves back.
- Concurrency is not modelled: the semaphore, `Interlocked` and the `AutoResetEvent`. The gate is a held/released flag, the counters are updated sequentially, and the drain signal is a boolean. The race between the ledger check and the ledger update in `OptimizeImageAsync` is not modelled.
- Tinify.TinifyClient.SetApiKey: a `Tinify.Validate()` call that throws (`ContentManagement/TinifyClient.cs:70`, a network failure) is not an outcome of the `usage` parameter. In the source that exception leaves `SetApiKey` after line 68 has already moved the cursor past the key. That key is then never tried again in the process, and `Fit` counts the request finished and rethrows (lines 38-54).
- Tinify.TinifyClient.SetApiKey: the C# counter `_remainingRequests` is a `long`; the model uses unbounded integers, and no wrap-around can occur within the limits in use.
- Image decoding (`Image.FromStream` and the GIF test) is an input saying what decoding finds. `Resize` and `ReduceToFit` (floating point and GDI drawing) are not part of this model.
- Character classes are ASCII. `char.IsLetter`, `char.IsDigit`, `char.IsUpper`, `char.IsLower`, the regex `\d`, `Trim` white space and `ToLower` are their ASCII restrictions.
- The base `TypeConverter` behaviour is not modelled. Reaching it (`ConvertFrom` on null or a non-string, `ConvertTo` another type) is reported as `DelegatedToBase`. The source sends null to the base converter (a null value is not a string), so null never becomes the default margin.
- The `Random` seeded from the clock is an oracle of successive draws. Registration.Registrar.NextId requires that some draw is not registered yet: the source loops forever when every draw collides.
- Persistence.PersistenceManager.NextId: the C# counter `_id` is a 32-bit `int` and wraps around after 2147483647 calls; the model's counter is unbounded.
- Persistence.PersistenceManager.AssignImageOwnerIds requires every preview item and portfolio item in the tree to be its own object, as for a tree freshly read from the items file. Fields it does not change are stated by its frame, not by its postconditions; the same holds for AssignFamily.
- Persistence.RenamePreviewItemImage, Persistence.RenameChildFolder and Persistence.RenameChildImages require the portfolio items to be distinct objects, as in a tree freshly read from the items file. A list holding the same object twice, whose image the source's `foreach` would rewrite twice, is not modelled.
- `PortfolioItems` is never null in the model. The null-conditional lookup in `EvaluateChildFolderName` therefore only sees a missing preview item.
- Persistence.DeleteImage: the `File.Exists` test is not modelled; a `DeleteFile` action stands for deleting the file if it is there.
- File and directory operations (`File.Move`, `File.Copy`, `File.Delete`, `Directory.Move`, `Directory.CreateDirectory`) are returned as file actions, not performed. `Path.Combine` with the images folder is not modelled.
- `Guid.NewGuid()` and `Path.GetExtension` are parameters.
- `ImportData`, `ExportData`, `RenamePortfolioItemImage`, `DeleteChildFolder`, `ConfigurationManager` settings and `FileHelper` are not part of this model.
- The UI (`MainForm`, `ImagePicker`, `MultilineStringEditor`) is not part of this model.
- The PreviewItem constructor's call to `NextId` is not modelled; PreviewItem.cs is not part of this model beyond the fields the core reads.
- `ProjectItem.Parent` is not modelled: nothing in the core reads it.
- Items.ReadIdTwice requires the manager's counter to be non-negative. This holds for every counter reached from the initial 0 by `NextId`, and it is what makes the drawn id non-zero.

## Findings

| source | as written | input that shows it | evidently intended | confidence | as-written member | corrected member |
|---|---|---|---|---|---|---|
| ContentManagement/ExtensionMethods.cs:17-53 | The first character is appended without the letter-or-digit test, and only '-' is trimmed at the end | The title "/abc" gives the stem "/-abc" (likewise ",abc" gives ",-abc"). As a child folder name it puts a '/' at the front of every child image, and the folder of such an image reads back as "" | "/abc" gives "abc": a leading separator behaves like any other separator | medium, not executed | Hyphenation.LeadingSeparatorKept | Hyphenation.HyphenCaseFixed |

The `Title` and `Description` setters trim, so leading white space never reaches `ToHyphenCase` on this path; punctuation does. File and folder names are modelled as written: `Persistence.FileStem` uses `ToHyphenCase`. `Persistence.FileStemSlash` bounds what can go wrong: a '/' can only be the first character of a stem. `Persistence.SlashTitle` follows the title "/abc" through. Its stem is "/-abc", and an image named into that child folder reads back as being in the folder "". `EvaluateOrCreateChildFolderName` then finds no folder and creates a new one.

`Hyphenation.HyphenCaseFixed` is the corrected form. It first maps a leading separator to '-' and then runs the same builder. Its own contract states its shape. `FixedKeeps` and `LeadingSeparatorFixed` prove the rest. `FixedAgrees` shows it differs from the code only on such inputs.
