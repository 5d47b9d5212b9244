# Record store and image sizing of a Telegram voice/photo bot

This project models, in Dafny, the two pieces of logic in the bot that are
more than calls into libraries:

- **The audio record store** (`DatabaseHandler`, module `Database`). The SQLite
  file is abstracted to a class `DatabaseHandler` with three fields: `tables`
  (whether `create_tables` has run on the file), `users` (the `u_id`s of the
  `Users` table, a set) and `audios` (the rows `(a_id, a_name, a_path, u_id)` of
  the `Audios` table, in insertion order). `CreateTables`, `PostNewUser`,
  `GetUserAudioCount` and `PostUserAudio` are methods over that state. Each is
  specified against pure functions (`CountFor`, `PostedRows`, `PostedName`,
  `PostedNames`), and the lemmas about those functions carry the promises:
  sequential per-user names, a count that grows by exactly one, other users left
  alone, and distinct names over a series of posts. Before the tables exist
  every statement fails with "no such table". The source catches and prints that
  error, so the model has the count query return `None` and `postUserAudio`
  return `audio_message_None` without changing anything. The invariant `Valid()`
  is the schema's own invariant, kept for its own sake: the `a_id` key is
  unique, every row's owner is a registered user, and a file without tables
  holds no users and no rows. Every method preserves it. No postcondition needs
  it, and `GetUserAudioCount` does not require it.
- **The sizing rule of `ImageUtils.resize_to_fit`** and **`count_directory_files`**
  (module `ImageUtils`), as pure functions over naturals. For positive bounds the
  rule fits every image within both bounds exactly when
  `max_height <= max_width <= max_height + 1` (`ResizeAlwaysFitsIff`). Square
  bounds, which the one call site uses (500x500), are such a case; other bounds
  can give an image that overflows a bound. See "## Findings".
- Module `Decimal` renders integers the way Python's f-strings do and proves
  that rendering injective through its inverse `DecimalValue`. Module `Wrappers`
  holds `Option`.

Modelling assumptions:

- The UUID that `generate_uuid` draws is a parameter `aId` of `PostUserAudio`.
  Because the insert is `INSERT OR IGNORE`, an `aId` already in use means no row
  is added. The "one more row" promises are therefore stated for a fresh `aId`.
- `resize_to_fit` computes its scaled side as `int(max_width / (width / height))`
  in floating point. The model uses the exact rational value rounded down,
  `max_width * height / width` in integer division (`ScaleSide`). The float
  landscape test `aspect_ratio > 1` is modelled as `width > height`.
- The stored path is `/data/<u_id>/audio_data/<name>.wav`, exactly as
  data/database_handler.py:89 builds it. The file itself is written elsewhere
  (utils/audio_utils.py:26-32, under `<base>/data/audio_data/<u_id>/`). The
  model follows the database code.

## Model

| member | source | states |
|---|---|---|
| `Database.DatabaseHandler.constructor` | data/database_handler.py:8-9 | a handle on a database file that has no tables, users or audio rows yet |
| `Database.DatabaseHandler.CreateTables` | data/database_handler.py:15-45 | afterwards both tables exist; if they already existed every user and row is unchanged (`IF NOT EXISTS`), so running it twice is the same as running it once |
| `Database.DatabaseHandler.PostNewUser` | data/database_handler.py:48-57 | insert-or-ignore: the user set becomes the old set plus `userId`, so the id is present exactly once and no other user and no audio row changes; with no tables nothing changes |
| `Database.DatabaseHandler.GetUserAudioCount` | data/database_handler.py:109-126 | returns `Some(n)` exactly when the tables exist, where `n` is the number of positions of rows owned by the user; the result is `Some(0)` exactly when the user owns no row; reads only |
| `Database.DatabaseHandler.PostUserAudio` | data/database_handler.py:59-106 | returns `audio_message_<n>` for the user's count `n` before the call (or `audio_message_None` without tables); the user is registered; the table becomes `PostedRows` of the old one; with a fresh id exactly the row `(aId, name, path, userId)` is appended, the user's count rises by one and every other user's count is unchanged |
| `Database.AudioName` | data/database_handler.py:87 | every name begins with `audio_message_`; that distinct counts give distinct names, none equal to the failed-query name, is `AudioNameInjective` |
| `Database.AudioPath` | data/database_handler.py:89 | the stored path begins with `/data/`, ends with the name followed by `.wav`, and is exactly as long as its parts (user id, name and 22 fixed characters) |
| `Database.AudioPathInjective` | data/database_handler.py:89 | two stored paths are equal exactly when both the user id and the name are; the user id segment ends at the first `/` after `/data/` (`AudioPathUserSegment`) |
| `Database.AudioPathUserSegment` | data/database_handler.py:89 | in a stored path the first `/` after `/data/` comes right after the rendered user id |
| `Database.CountFor` | data/database_handler.py:120 | the count query never returns more than the number of rows; its meaning is given by `CountForIsOwnedIndices` |
| `Database.PostedRows` | data/database_handler.py:97-100 | insert-or-ignore keeps the old rows as a prefix and adds exactly one row, or none when the id is already a key |
| `Database.PostedCounts` | data/database_handler.py:85 | a series of posts reads one count per call, each from the table left by the calls before it |
| `Database.PostedNames` | data/database_handler.py:83-106 | a series of posts returns one name per call, built from the count that call read |
| `Database.PostedCountAt` | data/database_handler.py:83-100 | with fresh, distinct ids the k-th post of a series reads the count `c + k`, for the user's starting count `c` |
| `Database.PostedNameAt` | data/database_handler.py:83-100 | with fresh, distinct ids the k-th post of a series returns `audio_message_<c+k>` |
| `Database.CountForAppend` | data/database_handler.py:120 | appending a row adds one to its owner's count and nothing to anyone else's |
| `Database.CountForZero` | data/database_handler.py:120-124 | the count is 0 exactly when no row belongs to the user |
| `Database.CountForIsOwnedIndices` | data/database_handler.py:120 | the recursive count equals the size of the set of positions whose `u_id` is the user |
| `Database.PostedRowsCounts` | data/database_handler.py:83-100 | with a fresh id, a post raises the poster's count by exactly one and leaves every other user's count unchanged |
| `Database.PostedRowsAppend` | data/database_handler.py:87-100 | with a fresh id, exactly one row is appended after the old ones, with `a_id` the drawn id, `u_id` the user, `a_name` the returned name and `a_path` `/data/<u>/audio_data/<name>.wav` |
| `Database.PostedRowsDuplicateId` | data/database_handler.py:97-100 | an id that is already a row's key makes the insert a no-op |
| `Database.PostedRowsKeepsUniqueIds` | data/database_handler.py:34 | posting keeps the `a_id` primary key unique |
| `Database.PostedNamesSequential` | data/database_handler.py:85-87 | k successive posts with fresh, distinct ids return `audio_message_<c>` … `audio_message_<c+k-1>` for the user's starting count `c` |
| `Database.PostedNamesFromScratch` | data/database_handler.py:85-87 | for a user with no rows the k names are `audio_message_0` … `audio_message_<k-1>` and are pairwise distinct |
| `Database.AudioNameInjective` | data/database_handler.py:85-87 | two names are equal exactly when the counts are; no counted name equals the `audio_message_None` produced when the count query fails |
| `Decimal.NatToString` | data/database_handler.py:87 | the rendering of a count is a non-empty string of decimal digits, one digit long exactly for values below 10 |
| `Decimal.NatToStringNoLeadingZero` | data/database_handler.py:87 | the rendering of a positive count does not start with `0` |
| `Decimal.DecimalRoundTrip` | data/database_handler.py:87 | reading the rendered digits back gives the number |
| `Decimal.NatToStringInjective` | data/database_handler.py:87 | distinct counts render to distinct strings |
| `Decimal.IntToString` | data/database_handler.py:89 | the rendering of a user id is non-empty and starts with a `-` exactly for negative ids |
| `Decimal.IntToStringInjective` | data/database_handler.py:89 | distinct user ids render to distinct path components; `AudioPathInjective` builds on it |
| `Decimal.IntToStringHasNoSlash` | data/database_handler.py:89 | a rendered user id contains no `/`, so it cannot run into the next path segment |
| `ImageUtils.ScaleSide` | utils/image_utils.py:43-48 | the scaled side is the exact aspect-preserving value rounded down: within one pixel below it |
| `ImageUtils.ResizeToFit` | utils/image_utils.py:34-52 | no result exactly when a bound is below 1; an image that fits keeps its size; an oversized landscape image gets width `max_width` and height `floor(max_width*height/width)`; an oversized portrait or square image gets height `max_height` and width `floor(max_height*width/height)` |
| `ImageUtils.ResizeSquareBoundsShrinks` | utils/image_utils.py:42-48 | with square bounds the result exists, fits within both bounds and has no side larger than the original |
| `ImageUtils.ResizeNearSquareBoundsFit` | utils/image_utils.py:42-48 | when `max_height <= max_width <= max_height + 1`, the result exists, fits within both bounds and has no side larger than the original |
| `ImageUtils.ResizeTallBoundsOverflow` | utils/image_utils.py:42-48 | under bounds taller than wide, the square image one pixel above the height bound becomes a square of the height bound, wider than the width bound |
| `ImageUtils.ResizeWideBoundsOverflow` | utils/image_utils.py:42-45 | under bounds at least two wider than high, a `(h+2)x(h+1)` image for height bound `h` gets width `max_width` and a height above the height bound |
| `ImageUtils.ResizeAlwaysFitsIff` | utils/image_utils.py:21-48 | for positive bounds, every image fits within both bounds and never grows exactly when `max_height <= max_width <= max_height + 1` |
| `ImageUtils.ResizeNonSquareBoundsOverflow` | utils/image_utils.py:21-48 | a 200x100 image under a 1000x50 box becomes 1000x500: higher than the bound and wider than the original |
| `ImageUtils.WidthBinds` | utils/image_utils.py:42-45 | when the width bound binds first, the image is wider than that bound and the scaled height fits under both the height bound and the original height |
| `ImageUtils.HeightBinds` | utils/image_utils.py:42-48 | when the height bound binds first, the image is taller than that bound and the scaled width fits under both the width bound and the original width |
| `ImageUtils.FitWithin` | utils/image_utils.py:21-24 | the corrected rule: for any positive bounds the result fits within both and never enlarges; an image that fits is kept; otherwise the side whose bound binds first (width when `width*max_height > height*max_width`) equals its bound and the other side is the aspect-preserving value rounded down, within one pixel of it |
| `ImageUtils.FitWithinAgreesOnSquareBounds` | utils/image_utils.py:42-48 | under square bounds the corrected rule and the source's rule give the same dimensions |
| `ImageUtils.ProcessImageSize` | utils/image_utils.py:99 | the 500x500 resize of `processImage` is the source's rule at those bounds, coincides with the corrected rule there, fits in 500x500 and only shrinks |
| `ImageUtils.CountDirectoryFiles` | utils/image_utils.py:12-19 | at least -1, and -1 exactly when the path is not a directory or the directory is empty |
| `ImageUtils.CountDirectoryFilesImages` | utils/image_utils.py:14-19 | when `.gitignore` is present, the result is the number of the other entries |
| `ImageUtils.CountDirectoryFilesAfterSave` | utils/image_utils.py:19 | saving one file under a new name raises the count by exactly one |
| `ImageUtils.CountDirectoryFilesEmptyLikeMissing` | utils/image_utils.py:16-19 | an empty directory gives the same -1 as a missing directory |

## Left out

- SQLite itself: connections, commits, timestamps (`u_joined`, `a_timestamp`). Errors other than missing tables (a locked or unreadable file) are not modelled either. The file is an in-memory state with one object standing for it. A handle opened on a file that already holds tables is not modelled; the constructor gives an empty file.
- The `ON DELETE SET NULL` foreign key: no operation deletes users, so it never fires. SQLite does not enforce foreign keys by default.
- User ids beyond SQLite's 64-bit INTEGER: such an id raises an overflow that the source does not catch. The model takes `u_id` as an unbounded `int`.
- `generate_uuid`: `uuid.uuid4()` is random. Its result is the parameter `aId`.
- Database.DatabaseHandler.PostUserAudio: does not model the race between reading the count and inserting the row when two messages arrive together. The model is sequential.
- ImageUtils.ResizeToFit: the float aspect ratio is replaced by exact integer floor division. Float rounding can differ by one pixel when the quotient lands on an integer.
- ImageUtils.ResizeToFit: the call to `cv2.resize` is not modelled, nor does the model reject a computed side of 0, which `cv2.resize` refuses. A height of 0 once the bounds pass is a precondition: the source divides by it.
- The OpenCV steps and face detection (`imdecode`, `equalizeHist`, `GaussianBlur`, `divide`, `hasFaces`, the rest of `processImage`). These are library numerics and a pretrained classifier. A failed decode (`None` image) is left out with them.
- `count_directory_files`: the file system call is a parameter. The listing is a set of names (`os.listdir` gives distinct names), or `None` when the path is not a directory.
- utils/audio_utils.py (decode, resampling, `os.makedirs`, the file write) and main.py (the chat handlers, token loading, downloads, the image file name built from the count): I/O around library and platform calls.

## Findings

| source | as written | input that shows it | evidently intended | confidence | as-written member | corrected member |
|---|---|---|---|---|---|---|
| utils/image_utils.py:42-48 | the clamped side is chosen by the image's orientation alone (`aspect_ratio > 1`), not by which bound binds first | width 200, height 100, max 1000x50: the result is 1000x500, higher than the bound and wider than the original | fit within both bounds while keeping the aspect ratio, as the docstring (utils/image_utils.py:23-24) says, by clamping the side whose bound binds first | not executed; harmless at the only call site (utils/image_utils.py:99, square 500x500 bounds), where both rules agree; the source's rule fits for all images exactly when `max_height <= max_width <= max_height + 1` (`ImageUtils.ResizeAlwaysFitsIff`) | `ImageUtils.ResizeNonSquareBoundsOverflow` | `ImageUtils.FitWithin` |
