# braulio release core, modelled in Dafny

braulio is a command-line release helper. It reads the commits since the last tag, each
of which may carry a `!action:scope` marker on the last line of its message. It groups
them by action and scope, decides whether the release bumps the major, minor or patch
number, and writes a reStructuredText section for the release into the changelog.

This project models the parts of the package that compute:

- **`Versions`** (braulio/version.py): the strict version pattern; the `Version` class with
  its numbers, its `string` text, `bump` and the comparison operators (the `TypeError`
  for a non-`Version` operand included); and `get_next_version`.
- **`GitLog`** (braulio/git.py):
  - `_extract_commit_texts`, which cuts `git log` output into commit blocks;
  - `Commit.__init__`, which parses a block into hash, message, header, body, action and scope;
  - `Tag.__init__`;
  - the tag listing of `Git.tag()`, parsed newest first;
  - the command lines `Git.log` and `Git.tag` build;
  - the lazily filled `tags` cache.
- **`Grouping`**: the dict of dicts that `_organize_commits` (braulio/release.py) and
  `_make_tree` (braulio/changelog.py) build with the same loop body. It is described once,
  for a key function that says under which action a commit is filed, or that it is skipped.
- **`Release`**: `_organize_commits`, which groups the commits and chooses the bump type.
- **`Markup`** (braulio/files.py): `_make_title`, `_make_sublist`, `_make_list`,
  `_make_release_markup` and the splice of `update_changelog`. braulio/changelog.py has
  identical copies of the first three helpers and of the splice; these members model both.
- **`Changelog`** (braulio/changelog.py): `_make_tree`, and `_make_release_markup` on a
  list of commits.
- **`Configuration`** (braulio/config.py): `DEFAULT_CONFIG`, the reading of the boolean
  options, and the parsing of the `files` option in `Config.__init__`.
- **`Text`**, **`Dicts`**, **`Wrappers`**: the Python behaviour the rest relies on:
  - `str.split`, `str.join`, `str.strip` and single-character `replace`;
  - the leftmost scan of `re.search`;
  - `int()` and number formatting;
  - insertion-ordered `dict` with assignment and `del`;
  - `Option` and `Result`.

Python's `None`, its exceptions and its falsy values are explicit:

- `Option` stands for a value that may be `None`.
- `Result` stands for a call that may raise. `ValueError` from `Version(string)` and from `getboolean`, and the
  `AttributeError` of braulio/changelog.py line 90 are modelled this way.
- A truthiness test is written out as a predicate.

Dicts keep their key order as a sequence next to the map. The changelog's text is a
string, and the changelog is given as an `Option`: `None` when no changelog file exists.

## Model

| member | source | states |
|---|---|---|
| Versions.ParseVersion | braulio/version.py:17-21 | `string.split('.')` into three `int()` pieces succeeds exactly when there are three pieces and each is an `int()` literal (blanks around, an optional `+`, single underscores between digits); otherwise the `ValueError` is the unpacking of the wrong number of pieces, or the first piece, left to right, that is not a literal |
| Versions.TrimIsStrip | braulio/version.py:19-21 | the blanks `int()` ignores around a literal are those `str.strip()` removes |
| Versions.DigitsNumeral | braulio/version.py:19-21 | digits with blanks around them, a newline included, are a literal worth the digits' value |
| Versions.SignedNumeral | braulio/version.py:19-21 | `+` then digits is a literal worth the digits' value |
| Versions.UnderscoreNumeral | braulio/version.py:19-21 | two digit runs joined by `_` are a literal worth the digits read together |
| Versions.ParsePieces | braulio/version.py:17-21 | three digit runs joined by dots, with blanks before and after, parse to the three runs' values |
| Versions.UnpackExample | braulio/version.py:17 | `1.0` fails to unpack, with two pieces |
| Versions.LetterExample | braulio/version.py:19-21 | `1.a.0` fails on the literal `a` |
| Versions.MinusExample | braulio/version.py:19-21 | `1.-2.0` fails on the literal `-2` |
| Versions.UnderscoreExample | braulio/version.py:19-21 | `1.2_.0` fails on the literal `2_` |
| Versions.FormatIsValid | braulio/version.py:4-9 | the text `_update_version_string` writes for any numbers passes `validate_version_str` |
| Versions.ParseFormat | braulio/version.py:17-23 | parsing the text written for a version gives back its three numbers (round trip) |
| Versions.FormatParse | braulio/version.py:4-23 | a string of the strict pattern without a trailing newline parses, and re-formatting it gives the same string |
| Versions.ValidatedParse | braulio/version.py:4-23 | every string `validate_version_str` accepts parses; re-formatting gives the string back, less the one trailing newline `$` lets through |
| Versions.NewlineParse | braulio/version.py:4-21 | a newline after a strict version string does not change what it parses to |
| Versions.ValidateRejectsShort | tests/test_version.py:11-12 | `1` and `1.0` are rejected |
| Versions.ValidateRejectsLeadingZero | tests/test_version.py:17 | `01.0.1` is rejected |
| Versions.ValidateRejectsLong | tests/test_version.py:20 | `1.1.1.1` is rejected |
| Versions.ValidateRejectsLetters | tests/test_version.py:13 | `a.b.c` is rejected |
| Versions.Trichotomy | braulio/version.py:48-72 | for two versions exactly one of `<`, `==`, `>` holds |
| Versions.LessTransitive | braulio/version.py:57-72 | `__lt__` is transitive |
| Versions.Bumped | braulio/version.py:25-33 | `major` resets minor and patch, `minor` resets patch, any other part bumps the patch; the result is greater |
| Versions.Version.constructor | braulio/version.py:13-23 | `Version(major=, minor=, patch=)` holds those numbers and the matching text |
| Versions.Version.FromString | braulio/version.py:13-23 | `Version(string)` for a string that parses holds the parsed numbers (0.0.0 for the falsy empty string) and the re-formatted text |
| Versions.NewVersion | braulio/version.py:13-23 | `Version(string)` either returns a fresh version holding the parsed numbers, exactly when the string is empty or parses, or raises the `ValueError` of the parse |
| Versions.Version.Bump | braulio/version.py:25-35 | `bump` changes the numbers in place as `Bumped` says, keeps the text in step, and the version grows |
| Versions.Version.UpdateVersionString | braulio/version.py:37-38 | afterwards the text is the formatted numbers |
| Versions.Compare | braulio/version.py:40-77 | two versions always compare: `<` and `>` by the (major, minor, patch) order, `<=` and `>=` by that order or equality, `==` and `!=` by the three numbers; with a non-`Version` operand every operator raises a `TypeError` whose message contains `not supported` |
| Versions.ContainsNotSupported | braulio/version.py:42-46 | both forms of the `TypeError` message contain `not supported` |
| Versions.CompareTrichotomy | braulio/version.py:48-77 | through the operators, exactly one of `a < b`, `a == b`, `a > b` is `True` |
| Versions.NextVersion | braulio/version.py:86-107 | a keyword gives the last version (0.0.0 when there is none) bumped by it; an explicit version is `None` exactly when there is a last version it does not exceed, and otherwise is returned as parsed; any result exceeds the last version |
| Versions.GetNextVersion | braulio/version.py:86-107 | returns a fresh `Version` (or `None`) whose numbers are `NextVersion`'s, and leaves `last_version` unchanged |
| Versions.NextVersionExplicit | braulio/version.py:88-94 | for an explicit version: `None` exactly when it does not exceed the last version, else the version itself |
| Versions.NextVersionKeywordExamples | tests/test_version.py:178-183 | the keyword rows of the `get_next_version` table |
| Versions.NextVersionExplicitRefused | tests/test_version.py:171-172 | `0.0.0` after `0.0.0` or `0.0.1` gives `None` |
| Versions.NextVersionExplicitAccepted | tests/test_version.py:173 | `0.0.2` after `0.0.1` is returned |
| Versions.NextVersionFirstRelease | tests/test_version.py:175 | `7.0.0` with no last version is returned |
| Versions.NextVersionTwoDigits | tests/test_version.py:177 | `0.0.12` is returned as 0.0.12 |
| GitLog.TaskAt | braulio/git.py:7 | a match of `!\w+:\w*` at a position is `!`, a non-empty word, `:` and a word, found there in the line, and the scope is not followed by another word character (greedy) |
| GitLog.TaskAtComplete | braulio/git.py:7 | wherever `!`, a word and `:` occur, `!\w+:\w*` matches there with that word as the action |
| GitLog.StripEol | braulio/git.py:44 | two final newlines are cut when present, otherwise one character |
| GitLog.MessageLines | braulio/git.py:46-52 | the message lines number four fewer than the text lines (at least one) and hold no newline |
| GitLog.ParseCommit | braulio/git.py:42-74 | hash from the first line; message lines joined back; header is the first of them; a body exactly when the second line is blank and more follows, and then message = header, blank line, body; an action only with a body, a scope only with an action and never empty |
| GitLog.BodyJoin | braulio/git.py:64-65 | a message whose second line is blank is its header, an empty line and the body |
| GitLog.CommitTask | braulio/git.py:64-74 | action and scope come from the leftmost `!action:scope` match on the last message line, and exist exactly when there is a body and such a match |
| GitLog.ChunkEnd | braulio/git.py:80 | the lazy `.+?` stops at the first `commit <40 word characters>` after the chunk's start, or runs to the end |
| GitLog.ExtractFrom | braulio/git.py:80-84 | every chunk `findall` returns starts with `commit ` |
| GitLog.ExtractConcat | braulio/git.py:80-84 | cutting the concatenation of well-formed commit blocks gives back exactly those blocks, in order |
| GitLog.ExtractBlocks | braulio/git.py:80-84 | the same, after any text that ends a line |
| GitLog.EntryMessageLines | braulio/git.py:46-52 | for the text `git log` prints for a commit, the message lines are the message and the hash is the one printed |
| GitLog.ParseLogEntry | braulio/git.py:42-65 | parsing a printed commit gives back its hash, message, header and body |
| GitLog.LogCommand | braulio/git.py:110-118 | `git log`, plus the range `_from..to` (to defaulting to `HEAD`) exactly when `_from` is truthy |
| GitLog.LogCommits | braulio/git.py:120-123 | one commit per extracted block |
| GitLog.LogCommitsOfBlocks | braulio/git.py:120-123 | a log made of well-formed commit blocks gives one commit per block, each the parse of its block, in order |
| GitLog.VersionNameAt | braulio/git.py:28 | a match of `v\d+[.]\d+[.]\d+` at a position occurs there, starts with `v`, and its last digit run is not followed by another digit (greedy) |
| GitLog.VersionNameAtComplete | braulio/git.py:28 | wherever `v`, digits, `.`, digits, `.`, digits occur, the pattern matches there, and the match extends that text |
| GitLog.VersionNameAtParses | braulio/git.py:28-31 | the number of every match parses as a version |
| GitLog.TagFields | braulio/git.py:25-31 | a tag's date is the first ten characters; its name is the leftmost match of the pattern in the line; its number is the name without `v` and parses to its version |
| GitLog.TagsFromOutput | braulio/git.py:137-145 | blank output gives no tags; otherwise the stripped output is split into lines, each parsed, and the list reversed |
| GitLog.TagsNewestFirst | braulio/git.py:142-145 | one tag per listed line, the i-th tag being the i-th line from the end (newest first) |
| GitLog.TagCommand | braulio/git.py:128-147 | the listing command without a name, `-a name -m ""` with one |
| GitLog.Git.Tags | braulio/git.py:150-154 | the first read parses the listing and keeps it; later reads return the kept list unchanged |
| Dicts.Dict.Put | braulio/release.py:21-31 | `d[k] = v`: a new key goes last, an existing key keeps its place, and the value is replaced |
| Dicts.Dict.Remove | braulio/files.py:53 | `del d[k]`: the key leaves the order, the others keep theirs |
| Grouping.NewScopes | braulio/release.py:22 | `{'scopeless': []}` |
| Grouping.FileInScope | braulio/release.py:24-31 | the commit is appended to its scope's list, created last when new; `scopeless` when the scope is falsy |
| Grouping.FileCommit | braulio/release.py:18-31 | the loop body, on dict values, equals `AddCommit`: the action is created with `{'scopeless': []}` if new, then the commit is filed in its scope |
| Grouping.GroupingAppend | braulio/release.py:18-31 | filing a commit keeps the dict a grouping: actions in first-appearance order, each bucket the commits of that action and scope in input order |
| Grouping.GroupingSkip | braulio/release.py:12 | a skipped commit leaves the grouping as it is |
| Grouping.Grouped | braulio/release.py:8-31 | the grouping built one commit at a time meets the description and holds as many commits as take part |
| Grouping.GroupingUnique | braulio/release.py:8-31 | the description fixes the dict: two groupings of the same commits are equal |
| Grouping.GroupedScopesNonEmpty | braulio/release.py:22-31 | every grouped scope dict has `scopeless`, and every other scope holds at least one commit |
| Grouping.AddCommitTotal | braulio/release.py:25-31 | filing a commit adds exactly one to the number of filed commits |
| Release.OrganizeCommits | braulio/release.py:7-40 | `by_action` is the grouping of the commits with a truthy action, counts exactly them, and `bump_version_to` is `BumpType` |
| Release.BumpTypeCases | braulio/release.py:33-35 | `major` exactly when some grouped commit mentions `BREAKING CHANGE`; `minor` exactly when there is none and some commit is a feature |
| Release.IgnoredCommit | braulio/release.py:12 | a commit without an action changes neither the grouping keys nor the bump type |
| Release.PluralIsBreaking | braulio/release.py:15 | `BREAKING CHANGES` also counts as a breaking change |
| Release.FeatureKeys | braulio/release.py:34 | `feat` is grouped exactly when some commit has the action `feat` |
| Markup.MakeTitle | braulio/files.py:21-24 | the title, a newline, an underline of the level's character as long as the title, and a blank line |
| Markup.TitleLines | braulio/files.py:21-24 | a one-line title splits into title, underline and two empty lines |
| Markup.TitleExamples | tests/test_changelog.py:15-17 | the three levels of `Title` |
| Markup.MakeSublist | braulio/files.py:38-44 | one `  - subject` line per commit, in order |
| Markup.SublistRoundTrip | braulio/files.py:38-44 | with one-line subjects, splitting the sublist gives back its items |
| Markup.MakeScopelessItems | braulio/files.py:50-51 | one `* subject` line per scopeless commit |
| Markup.MakeEntry | braulio/files.py:56-61 | `* scope` with a blank line and a sublist for several commits, `* scope - subject` for one |
| Markup.MakeEntries | braulio/files.py:55-61 | the scope entries, in the dict's order |
| Markup.MakeList | braulio/files.py:47-63 | the list markup, and the dict with `scopeless` deleted and everything else as it was |
| Markup.ListMarkupLines | braulio/files.py:47-63 | the list markup is its lines (scopeless items, each scope's entry lines, a blank line), each ended by a newline |
| Markup.EntriesAreLines | braulio/files.py:55-61 | the entries are the lines of each scope's entry, each ended by a newline |
| Markup.ListExample | tests/test_changelog.py:42-80 | the list the tests expect for their three-scope dict |
| Markup.Listed | braulio/files.py:53 | after `_make_list`, only that action's scope dict has changed, and it has lost `scopeless` |
| Markup.AddSection | braulio/files.py:71-77 | one `if action in grouped_commits` block: heading and list, or nothing, and the dict as `_make_list` leaves it |
| Markup.MakeReleaseMarkup | braulio/files.py:66-79 | level-2 title `version (date)`, a `Bug Fixes` section if there are fixes, a `Features` section if there are features, and the input dict with both lists' `scopeless` deleted |
| Markup.GroupingListable | braulio/release.py:21-31 | any grouping meets `_make_list`'s needs |
| Markup.FileLines | braulio/files.py:96-98 | iterating a file gives lines that each end with a newline (except possibly the last) and concatenate to the content |
| Markup.FileLinesConcat | braulio/files.py:96-98 | cutting the concatenation of file lines gives back the lines |
| Markup.UpdatedChangelog | braulio/files.py:82-103 | nothing is written without a changelog; otherwise the markup is inserted right after the heading and the rest of the text is kept |
| Markup.HeadingLines | braulio/files.py:100 | the heading is the first three lines, or the whole file when it is shorter |
| Changelog.EveryCommitFiled | braulio/changelog.py:41-46 | `_make_tree` files every commit, under its action as it is, `None` included |
| Changelog.MakeTree | braulio/changelog.py:38-57 | the tree is the grouping of all the commits and holds every commit exactly once |
| Changelog.VersionAttribute | braulio/version.py:13-38 | among names that are not methods or `__` names, a `Version` has exactly the data attributes `string`, `major`, `minor` and `patch`; any other such name raises `AttributeError` |
| Changelog.FormatTitle | braulio/changelog.py:90 | the title is the attribute then ` (date)`, or the failed lookup |
| Changelog.TitleAsWrittenFails | braulio/changelog.py:90 | as written, the title lookup fails for every `Version` |
| Changelog.ReleaseTitle | braulio/files.py:68 | with `version.string` the title is the version text then ` (date)` |
| Changelog.MakeReleaseMarkup | braulio/changelog.py:88-103 | with line 90 corrected, the release markup of the grouping of all commits, under the keys `fix` and `feat` |
| Configuration.Merged | braulio/config.py:5-13 | an option setup.cfg sets replaces the default, the others keep `True`, `True`, `False`, `''` |
| Configuration.ReadBoolean | braulio/config.py:23-25 | `1/yes/true/on` are true and `0/no/false/off` false, in any case; anything else is a `ValueError` |
| Configuration.ParseFiles | braulio/config.py:27-38 | blank gives no paths; otherwise the stripped value, newlines removed, split at commas, each piece stripped: one path per comma plus one, none containing a comma or newline or outer whitespace |
| Configuration.ParseJoinedFiles | braulio/config.py:27-38 | paths joined with commas, without blanks or line breaks, are read back as the same paths |
| Configuration.OneFile | tests/test_config.py:56 | a single path is itself |
| Configuration.TwoFilesPadded | tests/test_config.py:57 | ` a, b ` gives `a` and `b` |
| Configuration.ThreeFilesOverLines | tests/test_config.py:58-61 | three paths spread over three lines, with blanks around the value and the commas, give the three paths |
| Configuration.BlankFilesExamples | tests/test_config.py:54-55 | `''` and `' '` give no paths |
| Configuration.Config.constructor | braulio/config.py:18-38 | the three booleans as `getboolean` reads them and `files` as `ParseFiles` gives them |
| Configuration.DefaultSettings | tests/test_config.py:9-17 | without setup.cfg: commit and tag on, confirm off, no files |
| Configuration.FileOverridesDefault | tests/test_config.py:20-31 | an option set in setup.cfg overrides its default, the others keep theirs |

## Left out

- Running `git` (`_run_command`, `subprocess.run`), reading and writing files, and `click.echo` are I/O. The output of `git log` and `git tag`, the changelog's content and setup.cfg's `[braulio]` options are parameters.
- `get_file_path` and `create_file` only check for and create a file on disk; the title `create_file` writes is `MakeTitle`.
- `date.today()` is a clock: the date text is a parameter.
- `Git.add`, `Git.commit`, `Git.tag(name)` and `release()` in braulio/release.py run commands and prompt the user. Only the command line `Git.tag` builds is modelled (`GitLog.TagCommand`).
- braulio/cli.py and the `click` options are the command-line surface, not the core.
- The `commit`, `tag`, `confirm` and `files` properties return a field unchanged, so they are the `Config` fields.
- `Version.__str__` and `__repr__` only format.
- Regular-expression classes `\d` and `\w`, and `str.lower`, are ASCII here; Python's also accept other Unicode digits and letters. Whitespace for `str.strip` follows `str.isspace`.
- Reading a file line by line uses universal newlines; the model splits at `\n` only.
- Versions.ParseVersion: `int()` also reads a `-` sign, which gives a negative component (or 0 for `-0`); a piece with one is a `ValueError` here, because a version number is a `nat`. Digits outside ASCII are not modelled either.
- Versions.Version.FromString: requires a string that parses, as the constructor's precondition. The `ValueError` path of `Version(string)` is `Versions.NewVersion`.
- Versions.NextVersion: requires a keyword or a string that parses; for any other explicit version `Version(bump_version_to)` raises the `ValueError` that `Versions.NewVersion` models.
- Versions.GetNextVersion: requires the same as `Versions.NextVersion`, for the same reason.
- Changelog.VersionAttribute: requires a name that is not one of `bump`, `_update_version_string`, `_is_comparable` or a `__` name. Python answers those with a bound method or an inherited object attribute, whose formatted text is not modelled.
- Configuration.Config.constructor: requires the three boolean options to be readable. The `ValueError` path is modelled by `Configuration.ReadBoolean`, not raised from the constructor.
- GitLog.ParseTag: requires a line that names a version. On any other line `re.search` returns `None` and `.group` raises `AttributeError`; that path is not modelled.
- GitLog.ParseCommit: requires at least five lines. A shorter block makes `msg_lines[0]` raise `IndexError`; that path is not modelled.
- Markup.MakeList: requires a `scopeless` key and no empty scope list, as every grouping guarantees (`Markup.GroupingListable`). Otherwise `_make_list` raises `KeyError` or `IndexError`.
- Grouping.FileCommit: the nested dicts are values, so aliasing between them is not modelled. The loop body and `_make_list`'s `del` update the caller's dicts in place; `Markup.MakeList` and `Markup.MakeReleaseMarkup` return the updated dict instead.
- The `tuple` that `Config.files` holds is a sequence.

## Findings

| source | as written | input that shows it | evidently intended | confidence | as-written member | corrected member |
|---|---|---|---|---|---|---|
| braulio/changelog.py:90 | `f'{version.version} ({today})'` reads an attribute `Version` does not have, so `_make_release_markup` raises `AttributeError` before rendering anything | any `Version`, e.g. `Version('10.3.0')` | `version.string`, as braulio/files.py:68 reads it and tests/test_changelog.py expects `10.3.0 (<date>)` | high; not executed | Changelog.ReleaseTitleAsWritten (shown by Changelog.TitleAsWrittenFails) | Changelog.ReleaseTitle, used by Changelog.MakeReleaseMarkup |
