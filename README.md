# setuptools-changelog: the `changelog` command

This project models the `changelog` command of setuptools-changelog. The command
builds the changelog text of the next release from a directory of fragment
files. Each fragment is a file named `<name>.<type>.rst`.

- **Options.** The command reads three buckets of change types (major, minor,
  patch). Each bucket maps a type to its section title. It is given either as a
  mapping or as setup.cfg text of `key = value` lines. `finalize_options` parses
  the buckets, refuses a patch bucket without a minor bucket, and stores the
  union of the three.
- **Run, step by step.**
  - `run` lists the directory in sorted order.
  - It turns every `.rst` entry into a fragment. A name with other than three
    dot-separated parts is an `InvalidFragment`.
  - It parses the project version as `major.minor[.patch]`.
  - It groups the fragments by type, in the order major, minor, patch. A type
    no bucket names is an `InvalidFragment`.
  - It bumps the version by the bucket of the first group.
  - It prints:
    - a title `"<next version> (<today>)"` underlined with `=`;
    - one section per group: its title underlined with `-`, then one bullet per
      fragment. The bullet is prefixed with `` `#N`_: `` when the fragment name
      starts with an issue number;
    - the sorted, de-duplicated footnote targets of the issue tracker.

  The whole text is stripped.

The model is organised as follows.

**Pure code.** The fragment naming, the version arithmetic, the grouping, the
rendering and the option parsing are functions. They are written in these
modules:

| Module | What it holds |
|---|---|
| `PyStr` | the Python string builtins the command uses |
| `Sorting` | `sorted` on strings |
| `Dicts` | insertion-ordered dicts |
| `SemVer` | version numbers |
| `Fragments` | fragment names |
| `Grouping` | sorting and `groupby` |
| `Render` | rendering the text |
| `Options` | the change-type options |

**The command object.** It is the class `Changelog.ChangeLog`. Its option
attributes are fields. `FinalizeOptions` updates them in place, and `Run` walks
the command step by step. Each loop of `run` is a method of its own, proved
equal to a specification function:

| Method | Loop |
|---|---|
| `NextVersion` | the bump loop |
| `RenderSections` | the group loop (one pass is `RenderGroupAt`) |
| `RenderFragments` | the fragment loop |
| `AppendReferences` | the footer loop |
| `CollectPairs` | the line loop of `_parse_changes_types` |

**Parameters.** The following become parameters of the model:

- the directory listing;
- the contents of the fragment files (a map from path to text);
- the project version string;
- today's date.

The printed text, or the exception that stops the command, is the result
(`Result<string>`).

**Where the code and its tests or description differ, the model follows the
code:**

- A fragment whose name starts with an issue number renders as
  `` - `#1`_: text ``. The tests expect `- #1: text`.
- The option defaults of the change types are unset, not predefined tags.
  Running with an unset bucket fails (`UnsetOption`).
- The path of the fragments directory has no default. An unset path fails the
  assertion of `finalize_options` (`MissingFragmentsPath`).
- There is no `next_version`, `update` or `use_towncrier` option in the code.
- An empty fragment directory is not a separate error. It fails the assertion
  on the next version (`MissingNextVersion`).
- `rsplit('.')` is used without a limit. So a fragment name must have exactly
  two dots: `a.b.c.rst` is refused.

## Model

| member | source | states |
|---|---|---|
| PyStr.Strip | src/setuptools_changelog/changelog.py:115 | `str.strip`: the result is the stretch of the input between its leading and trailing whitespace, neither end of it whitespace |
| PyStr.StripAround | src/setuptools_changelog/changelog.py:115 | whitespace around a text is exactly what stripping removes: the result is the stripped text itself |
| PyStr.StripStripped | src/setuptools_changelog/changelog.py:115 | stripping text that neither starts nor ends with whitespace changes nothing |
| PyStr.StripOpen | src/setuptools_changelog/changelog.py:239 | text opening with a non-blank character loses only its trailing whitespace to `.strip()` |
| PyStr.StripKeepsHead | src/setuptools_changelog/changelog.py:239 | text that opens with a non-blank line keeps that line in front once stripped |
| PyStr.SplitOnce | src/setuptools_changelog/changelog.py:121 | `split('=', 1)`: None exactly when `=` is absent; otherwise key + `=` + value rebuilds the line and the key has no `=` |
| PyStr.Split | src/setuptools_changelog/changelog.py:41 | `rsplit('.')`: one more piece than there are dots, no piece holds a dot, and joining the pieces with `.` gives the text back |
| PyStr.EndsWithConcat | src/setuptools_changelog/changelog.py:160 | `endswith(suffix)` holds exactly when the text is some text followed by the suffix |
| PyStr.SplitAt | src/setuptools_changelog/changelog.py:41 | the piece before the first separator followed by the pieces of the rest splits the whole text |
| PyStr.SplitLines | src/setuptools_changelog/changelog.py:120 | `splitlines`: no line holds a line boundary; which lines it gives is stated by the two lemmas below |
| PyStr.SplitLinesRebuilds | src/setuptools_changelog/changelog.py:120 | the lines, each followed by a terminator (`\r\n` or one boundary character, or none after a non-empty last line), rebuild the text |
| PyStr.SplitLinesOfTerminated | src/setuptools_changelog/changelog.py:120 | boundary-free lines with their terminators, a lone `\r` never followed by an empty line ended by `\n`, split back into exactly those lines; a final terminator opens no empty line |
| PyStr.SplitLinesOfJoin | src/setuptools_changelog/changelog.py:120 | lines joined with `\n` and split again come back unchanged |
| PyStr.JoinEnds | src/setuptools_changelog/changelog.py:236-237 | a join starts with the first character of its first part and ends with the last character of its last part |
| PyStr.Join | src/setuptools_changelog/changelog.py:222-229 | `sep.join(parts)`: nothing for no parts; otherwise the text opens with the first part |
| PyStr.Repeat | src/setuptools_changelog/changelog.py:197 | `c * n` is n copies of c |
| Sorting.SortStrings | src/setuptools_changelog/changelog.py:158 | `sorted`: the result is ordered and a permutation of the input |
| Sorting.Insert | src/setuptools_changelog/changelog.py:158 | inserting one string into an ordered list keeps it ordered and adds exactly that string |
| Sorting.SortedUnique | src/setuptools_changelog/changelog.py:158 | two ordered permutations of the same strings are equal, so `sorted` has one possible result |
| Sorting.SameHead | src/setuptools_changelog/changelog.py:158 | two ordered permutations of the same strings start with the same string |
| Sorting.LexLeTotal | src/setuptools_changelog/changelog.py:158 | the string order compares any two strings |
| Sorting.LexLeTransitive | src/setuptools_changelog/changelog.py:158 | the string order is transitive |
| Sorting.LexLeAntisymmetric | src/setuptools_changelog/changelog.py:158 | strings each at most the other are equal |
| Sorting.DistinctPermutation | src/setuptools_changelog/changelog.py:237 | sorting a list without repetitions keeps it without repetitions |
| Sorting.StrictlySorted | src/setuptools_changelog/changelog.py:237 | a sorted list without repetitions is strictly increasing |
| Dicts.Put | src/setuptools_changelog/changelog.py:123 | storing a key: it maps to the new value, other keys keep theirs, a new key goes last, no key repeats |
| Dicts.Get | src/setuptools_changelog/changelog.py:201 | `d.get(k)`: a value exactly when k is a key, and that value is stored under k |
| Dicts.PutNew | src/setuptools_changelog/changelog.py:123 | storing a key the dict does not hold appends the pair at the end |
| Dicts.Update | src/setuptools_changelog/changelog.py:106-109 | `dict.update`: a key takes the last value the items give it, else keeps its old one; old keys keep their places; the new keys follow them in the order of their first occurrence in the items; the keys are the union; no key repeats |
| Dicts.LastValueUnique | src/setuptools_changelog/changelog.py:123 | in items without repeated keys the last value of a key is its only one |
| Dicts.FromUniqueItems | src/setuptools_changelog/changelog.py:123 | `OrderedDict(items)` of items without repeated keys is those items in their order |
| SemVer.NatToString | src/setuptools_changelog/changelog.py:180-182 | the decimal digits of a number: no leading zero, and their value is the number |
| SemVer.NumberAt | src/setuptools_changelog/changelog.py:170-172 | `0|[1-9][0-9]*` at position i: a match exactly where a digit stands; it spans digits only and its value is those digits; after a `0` it stops at once, otherwise it runs to the end of the digits |
| SemVer.NumberAtPrintedForm | src/setuptools_changelog/changelog.py:170-172 | the digits a match spans are the printed form of the number read |
| SemVer.NumberAtOf | src/setuptools_changelog/changelog.py:170-172 | the printed form of n, at position i and not followed by a digit unless n is 0, is read as n, ending after it |
| SemVer.DigitsRoundTrip | src/setuptools_changelog/changelog.py:170-172 | digits without a leading zero are the printed form of their value |
| SemVer.ParseVersion | src/setuptools_changelog/changelog.py:168-182 | the version match: a failure is `VersionError` of the text; a success starts with a digit; which version it gives is stated by ParseVersionDenotes |
| SemVer.ParseVersionDenotes | src/setuptools_changelog/changelog.py:168-182 | the parse gives v exactly when the text opens with printed `major.minor`, followed by `.patch` or, with patch 0, by no dot and digit; it fails exactly when the text opens with no version at all |
| SemVer.DenotesParse | src/setuptools_changelog/changelog.py:168-182 | a text that opens with a printed version parses to it |
| SemVer.ParseDenotes | src/setuptools_changelog/changelog.py:168-182 | a successful parse returns the version the text opens with |
| SemVer.ParsePrinted | src/setuptools_changelog/changelog.py:168-182 | printed `major.minor.patch`, followed by text that does not start with a digit, parses to that version |
| SemVer.ParseVersionRefuses | src/setuptools_changelog/changelog.py:168-178 | `1`, `1.`, `1.x` and `v1.2` are refused |
| SemVer.ParseVersionStopsEarly | src/setuptools_changelog/changelog.py:172-181 | in `1.2.x` the match ends before the second dot: version 1.2.0 |
| SemVer.ParseVersionZeroMinor | src/setuptools_changelog/changelog.py:171-181 | in `1.01` the minor number is the lone `0`: version 1.0.0 |
| SemVer.ParseVersionIgnoresRest | src/setuptools_changelog/changelog.py:169-182 | text after a full match is ignored: `1.2.3rc1` is 1.2.3 |
| SemVer.FormatVersion | src/setuptools_changelog/changelog.py:180-182 | the printed `major.minor.patch` form of a version parses back to it |
| SemVer.ParseFormatted | src/setuptools_changelog/changelog.py:168-182 | a printed `major.minor.patch` version, followed by any text that does not start with a digit, parses back to itself |
| SemVer.ParseWithoutPatch | src/setuptools_changelog/changelog.py:181 | `major.minor` without a patch part parses with patch 0 |
| SemVer.MajorPrinted | src/setuptools_changelog/changelog.py:170-171 | in printed text `major.…` the major number is read at the start and a dot follows it |
| SemVer.MinorPrinted | src/setuptools_changelog/changelog.py:171-172 | in printed text `major.minor.…` the minor number is read after the first dot and a dot follows it |
| SemVer.MinorLast | src/setuptools_changelog/changelog.py:171-172 | in printed `major.minor` followed by neither a digit nor a dot, the minor number is read after the dot and no patch part follows |
| SemVer.RejectsLeadingZero | src/setuptools_changelog/changelog.py:170 | an empty version, one not starting with a digit, or one whose major number has a leading zero is refused |
| SemVer.Bump | src/setuptools_changelog/changelog.py:186-191 | `semver.bump_*`: the result comes later and raises the bumped component (a greater major number; a later `major.minor`; a later version); a minor or patch bump keeps the major number, a patch bump the minor one |
| SemVer.BumpIsLeast | src/setuptools_changelog/changelog.py:186-191 | a bump raises its component, and no version that raises it comes before the bump |
| SemVer.BumpUnique | src/setuptools_changelog/changelog.py:186-191 | any least version raising the bumped component is the bump, so a major bump is `(M+1).0.0`, a minor one `M.(m+1).0`, a patch one `M.m.(p+1)` |
| SemVer.ParseVersionOf | src/setuptools_changelog/changelog.py:169-182 | the three groups of the match give the parsed version, with patch 0 when the third group is absent |
| Fragments.Basename | src/setuptools_changelog/changelog.py:41 | `os.path.basename`: the part of the path after its last `/` |
| Fragments.JoinPath | src/setuptools_changelog/changelog.py:159 | `os.path.join`: an absolute item replaces the base; otherwise the result opens with the base; it always ends with the item |
| Fragments.BasenameOfJoin | src/setuptools_changelog/changelog.py:159 | the base name of a directory joined with an entry is the entry |
| Fragments.FromPath | src/setuptools_changelog/changelog.py:39-51 | a fragment exists exactly when its base name has two dots; otherwise `InvalidFragment` on the path with the name message; its body is the file's text |
| Fragments.FromPathParts | src/setuptools_changelog/changelog.py:41 | the name and type hold no dot, and the base name is name.type.extension |
| Fragments.FromPathDotCount | src/setuptools_changelog/changelog.py:41-47 | a base name without exactly two dots gives `InvalidFragment` with the name message |
| Fragments.RstItems | src/setuptools_changelog/changelog.py:159-160 | exactly the listed entries that end with `.rst`, each as often as it is listed |
| Fragments.RstItemsConcat | src/setuptools_changelog/changelog.py:159-160 | the filter works entry by entry: filtering a concatenation concatenates the filtered parts, so the listing order is kept |
| Fragments.RstItemsSorted | src/setuptools_changelog/changelog.py:158-160 | filtering a sorted listing gives a sorted list |
| Fragments.RstPaths | src/setuptools_changelog/changelog.py:159 | one path per `.rst` entry, the directory joined with the entry |
| Fragments.LoadFragments | src/setuptools_changelog/changelog.py:159-160 | one fragment per path |
| Fragments.LoadFragmentsOk | src/setuptools_changelog/changelog.py:159-160 | loading succeeds exactly when every path names a fragment |
| Fragments.LoadFragmentsValues | src/setuptools_changelog/changelog.py:159-160 | each loaded fragment is the one its path gives, in order |
| Fragments.LoadFragmentsOf | src/setuptools_changelog/changelog.py:159-160 | paths that each name a fragment load as exactly those fragments, in order |
| Fragments.LoadFragmentsFirstError | src/setuptools_changelog/changelog.py:159-160 | a failed load reports the first bad path, with the name message |
| Grouping.Position | src/setuptools_changelog/changelog.py:142 | `list.index`: the first place of the type, or past the end when it is unknown |
| Grouping.FirstUnknown | src/setuptools_changelog/changelog.py:140-149 | the first fragment whose type is unknown; every earlier one is known |
| Grouping.InsertByPosition | src/setuptools_changelog/changelog.py:151 | inserting one fragment keeps the list ordered by type position and adds exactly that fragment |
| Grouping.SortByPosition | src/setuptools_changelog/changelog.py:151 | `sorted(key=by_order)`: ordered by type position and a permutation |
| Grouping.InsertOfType | src/setuptools_changelog/changelog.py:151 | inserting a fragment puts it in front of the fragments of its own type and leaves every other type's fragments as they were |
| Grouping.SortOfType | src/setuptools_changelog/changelog.py:151 | the sort is stable: the fragments of each type keep their order |
| Grouping.Runs | src/setuptools_changelog/changelog.py:151 | `groupby`: the groups flatten back to the list, each holds one type, and neighbouring groups differ in type |
| Grouping.RunsJoin | src/setuptools_changelog/changelog.py:151 | a fragment of the first run's type joins that run and the result still cuts the list into runs |
| Grouping.RunsOpen | src/setuptools_changelog/changelog.py:151 | a fragment of another type opens a run of its own and the result still cuts the list into runs |
| Grouping.RunsCover | src/setuptools_changelog/changelog.py:151 | every fragment's type is the type of some group |
| Grouping.RunsIncreasing | src/setuptools_changelog/changelog.py:151 | grouping a list ordered by type gives groups in strictly increasing type position |
| Grouping.IncreasingJoin | src/setuptools_changelog/changelog.py:151 | replacing the first group by one of the same type keeps the groups in increasing type position |
| Grouping.IncreasingOpen | src/setuptools_changelog/changelog.py:151 | a group put in front, whose type comes before the first group's, keeps the groups in increasing type position |
| Grouping.RunsOfSorted | src/setuptools_changelog/changelog.py:151 | grouping a list ordered by type gives each type's fragments in one group, in listing order |
| Grouping.RunsOfSortedJoin | src/setuptools_changelog/changelog.py:151 | when the first fragment joins the first run, each run still holds every fragment of its type |
| Grouping.RunsOfSortedOpen | src/setuptools_changelog/changelog.py:151 | when the first fragment opens a run, no later fragment has its type and each run still holds every fragment of its type |
| Grouping.RunsGroups | src/setuptools_changelog/changelog.py:151 | the runs of a list ordered by type position, all of whose types are known, are its groups |
| Grouping.GroupsOfRearranged | src/setuptools_changelog/changelog.py:151 | the groups of a list are the groups of any rearrangement that keeps every type's fragments in order |
| Grouping.GroupByType | src/setuptools_changelog/changelog.py:136-152 | fails exactly when some fragment's type is unknown, naming the first such fragment and its type |
| Grouping.GroupByTypeGroups | src/setuptools_changelog/changelog.py:136-152 | on success: one group per type present, in priority order, each holding that type's fragments in listing order; nothing is lost or added |
| Grouping.FirstGroupFirstType | src/setuptools_changelog/changelog.py:184-192 | the first group's type comes first among all the fragments' types |
| Render.IssueNumber | src/setuptools_changelog/changelog.py:207-209 | the issue pattern: the longest leading run of digits, absent exactly when the name does not start with a digit |
| Render.Percent | src/setuptools_changelog/changelog.py:215 | `tracker % issue_number`: a failure is `FormatError` of the template; a success needs a `%` in the template |
| Render.Substitute | src/setuptools_changelog/changelog.py:215 | formatting the rest of a template: a failure is `FormatError` of the template; before the argument is used, a success needs a `%` in the rest |
| Render.SubstitutePlain | src/setuptools_changelog/changelog.py:215 | text without `%` goes through `%` formatting unchanged |
| Render.TrackerUrl | src/setuptools_changelog/changelog.py:215 | a tracker template with one `%s` gives the URL with the issue number in its place |
| Render.TrackerUrlWithoutPlaceholder | src/setuptools_changelog/changelog.py:215 | a template without a placeholder cannot take the number: `FormatError` |
| Render.RenderEntry | src/setuptools_changelog/changelog.py:207-226 | fails exactly when a tracker is set, the name has an issue number and the template cannot take it, with `FormatError` of the template |
| Render.RenderEntrySpec | src/setuptools_changelog/changelog.py:207-226 | a bullet `- ` + body; with an issue number, the `` `key`_: `` marker and, when a tracker is set, the footnote `.. _key: url` whose URL is the template applied to the number; fails only when the template cannot take the number |
| Render.BodyText | src/setuptools_changelog/changelog.py:222-224 | the body with its lines rejoined by `\n  `: an empty body gives nothing, a one-line body is unchanged |
| Render.JoinIndented | src/setuptools_changelog/changelog.py:222-224 | joining with `\n  ` is joining with `\n` after indenting every line but the first |
| Render.BulletText | src/setuptools_changelog/changelog.py:222-224 | a bullet is its body's lines, the first after the lead and the rest indented |
| Render.BulletLinesUnbroken | src/setuptools_changelog/changelog.py:222-224 | the bullet's lines hold no line boundary |
| Render.EntryLines | src/setuptools_changelog/changelog.py:222-224 | the lines of a bullet are the body's lines, the first after the lead and the others indented by two spaces |
| Render.HeadingLines | src/setuptools_changelog/changelog.py:196-197 | a heading is two lines, its underline as long as its text |
| Render.Heading | src/setuptools_changelog/changelog.py:196-197 | a heading: the text, a line break, then the underline character as many times as the text is long |
| Render.TitleText | src/setuptools_changelog/changelog.py:196 | `'{} ({})'.format(next_version, today)`: the title parses back to the version |
| Render.TitleHeadingEnds | src/setuptools_changelog/changelog.py:196-198 | the release heading starts and ends with non-whitespace |
| Render.Section | src/setuptools_changelog/changelog.py:228-229 | `'\n'.join([title, underline, content])` is the title heading underlined with `-`, a line break, then the bullets separated by blank lines |
| Render.Chunks | src/setuptools_changelog/changelog.py:225 | the chunk of each entry, in order |
| Render.References | src/setuptools_changelog/changelog.py:226 | the reference of each entry, in order |
| Render.RenderEntries | src/setuptools_changelog/changelog.py:206-226 | one entry per fragment |
| Render.RenderEntriesSpec | src/setuptools_changelog/changelog.py:206-226 | rendering succeeds exactly when every fragment renders, giving each fragment's entry in order |
| Render.RenderEntriesError | src/setuptools_changelog/changelog.py:215 | a failure is the tracker template's `FormatError` |
| Render.RenderEntriesStops | src/setuptools_changelog/changelog.py:206-226 | the first failing fragment stops the loop |
| Render.RenderEntriesAdd | src/setuptools_changelog/changelog.py:206-226 | one iteration of the fragment loop that goes through adds that fragment's entry |
| Render.RenderEntriesFail | src/setuptools_changelog/changelog.py:206-226 | a fragment that fails to render stops the whole loop with its error |
| Render.AddReferences | src/setuptools_changelog/changelog.py:232-234 | the footer grows by at most one line per reference |
| Render.AddReferencesSpec | src/setuptools_changelog/changelog.py:232-234 | the footer only grows; it holds the old footer and every set reference; it has no repetition if it had none |
| Render.RenderGroups | src/setuptools_changelog/changelog.py:200-234 | one section per group |
| Render.RenderGroupsFooterContents | src/setuptools_changelog/changelog.py:204-234 | the footer holds exactly the footnotes the fragments of the groups render with |
| Render.RenderGroupsSpec | src/setuptools_changelog/changelog.py:200-231 | section i is group i's configured title underlined with `-`, a line break, then its fragments' bullets separated by blank lines; the title is set and every bullet renders |
| Render.RenderGroupsFooter | src/setuptools_changelog/changelog.py:232-234 | no footnote is collected twice |
| Render.RenderGroupsError | src/setuptools_changelog/changelog.py:201-215 | a failure is the tracker's `FormatError` or a group type without a title |
| Render.RenderGroupsAdd | src/setuptools_changelog/changelog.py:200-234 | one iteration of the group loop that goes through adds the group's section under its title and merges its footnotes into the footer |
| Render.RenderGroupsFail | src/setuptools_changelog/changelog.py:201-226 | a group whose title is missing, or one of whose entries fails, stops the whole loop with that error |
| Render.RenderGroupsStops | src/setuptools_changelog/changelog.py:200-234 | the first failing group stops the loop |
| Render.Document | src/setuptools_changelog/changelog.py:236-239 | the printed text neither starts nor ends with whitespace |
| Render.DocumentLayout | src/setuptools_changelog/changelog.py:236-239 | the printed text is the title, the sections and the sorted footnotes joined as `run` joins them, with only trailing whitespace removed |
| Render.DocumentWhole | src/setuptools_changelog/changelog.py:236-239 | when every footnote ends with a non-blank character, the printed text is exactly those joined parts, the sorted footnotes last |
| Render.FooterOrder | src/setuptools_changelog/changelog.py:237 | `sorted(footer)`, the block Render.DocumentLayout places last, is strictly increasing and holds exactly the footer's footnotes |
| Render.DocumentOpensWithTitle | src/setuptools_changelog/changelog.py:195-198 | the printed text opens with the title block |
| Options.ParseLine | src/setuptools_changelog/changelog.py:121 | a line fails exactly when it has no `=` (too few values to unpack), with `NotEnoughValues` of the line; key and value are stripped |
| Options.ParseLineParts | src/setuptools_changelog/changelog.py:121 | a line splits at its first `=`: the key is the text before it stripped, the value the text after it stripped |
| Options.ParseLineOf | src/setuptools_changelog/changelog.py:121 | `key=value`, with a key without `=` and both stripped, parses to that pair |
| Options.PairsOf | src/setuptools_changelog/changelog.py:119-122 | one pair per line; a failure is `NotEnoughValues` of some line without `=` |
| Options.PairsOfSpec | src/setuptools_changelog/changelog.py:119-122 | the loop succeeds exactly when every line holds a `=`, pair k then being what line k parses to; a failure names the first line without `=` |
| Options.PairsOfStops | src/setuptools_changelog/changelog.py:119-122 | the first line without `=` stops the loop |
| Options.PairsOfAdd | src/setuptools_changelog/changelog.py:119-122 | one iteration of the line loop that goes through appends that line's pair |
| Options.PairsOfFail | src/setuptools_changelog/changelog.py:119-122 | a line without `=` after lines that parse is the error of the whole loop |
| Options.ParsedChangesTypes | src/setuptools_changelog/changelog.py:111-123 | a mapping is kept; blank text is the empty mapping; unset is an error; a parsed mapping repeats no key |
| Options.ParsedTextSpec | src/setuptools_changelog/changelog.py:115-123 | non-blank text, stripped and split into lines, parses exactly when every line holds a `=`; each key then maps to the value of the last line naming it, in first-occurrence order; otherwise the error names the first line without `=` |
| Options.SerializedLine | src/setuptools_changelog/changelog.py:120 | each line of a writable bucket is non-empty and holds no line boundary |
| Options.PairsOfSerialized | src/setuptools_changelog/changelog.py:119-122 | the lines of a bucket parse back to its items |
| Options.SerializedText | src/setuptools_changelog/changelog.py:115-120 | the text of a bucket needs no stripping and its lines hold no boundary |
| Options.ParseSerialized | src/setuptools_changelog/changelog.py:111-123 | writing a bucket as setup.cfg text and parsing it again gives the bucket back |
| Options.PaddedLineParses | src/setuptools_changelog/changelog.py:121 | a line with whitespace around its key, its `=` and its value parses to the key and value |
| Options.ParsePadded | src/setuptools_changelog/changelog.py:111-123 | setup.cfg text of `key = value` lines, with whitespace around keys, `=`, values and the whole text, parses to the bucket (the last value of a repeated key) |
| Options.MergeChangesTypes | src/setuptools_changelog/changelog.py:101-109 | fails exactly when there are patch types and no minor ones; otherwise the keys are the union of the buckets |
| Options.MergeLookup | src/setuptools_changelog/changelog.py:106-109 | in the union a type's title comes from the last bucket that names it |
| Changelog.Finalize | src/setuptools_changelog/changelog.py:89-109 | the path must be set (`MissingFragmentsPath`); each bucket in turn is stored parsed; the first that fails gives its error and leaves the later buckets as they were; then a patch bucket without a minor one is `OptionError`; otherwise the union is stored, and only then |
| Changelog.FinalizeIdempotent | src/setuptools_changelog/changelog.py:89-123 | finalising a finalised command changes nothing |
| Changelog.ChangesTypesOrder | src/setuptools_changelog/changelog.py:162-166 | the known types are the keys of the three buckets |
| Changelog.FinalizedTitles | src/setuptools_changelog/changelog.py:106-109 | after finalising, every known type has a title, the one of the last bucket naming it |
| Changelog.NewChanges | src/setuptools_changelog/changelog.py:125-239 | the printed text is stripped |
| Changelog.ChangesOf | src/setuptools_changelog/changelog.py:159-239 | the printed text is stripped |
| Changelog.Release | src/setuptools_changelog/changelog.py:184-239 | the printed text is stripped |
| Changelog.ChangeLog.constructor | src/setuptools_changelog/changelog.py:70-77 | the options as set, `all_changes_types` unset |
| Changelog.ChangeLog.ParseChangesTypes | src/setuptools_changelog/changelog.py:111-123 | the method computes the parsed bucket |
| Changelog.ChangeLog.CollectPairs | src/setuptools_changelog/changelog.py:119-122 | the loop computes the pairs of the lines, or the first line's error |
| Changelog.ChangeLog.FinalizeOptions | src/setuptools_changelog/changelog.py:89-109 | the new attributes and the error are those of `Finalize` on the old attributes |
| Changelog.ChangeLog.ParseBuckets | src/setuptools_changelog/changelog.py:91-99 | the three parse assignments: on an error the state and the error are those of `Finalize`; otherwise each bucket is stored as its parsed form |
| Changelog.ChangeLog.Run | src/setuptools_changelog/changelog.py:125-239 | the method computes the printed text or the exception of the run |
| Changelog.NextVersion | src/setuptools_changelog/changelog.py:184-193 | no group, no version; otherwise the first group's bucket picks the bump |
| Changelog.BumpLevel | src/setuptools_changelog/changelog.py:186-191 | a type in the major bucket bumps the major number; else one in the minor bucket the minor; else one in the patch bucket the patch; a type no bucket names bumps nothing |
| Changelog.RenderSections | src/setuptools_changelog/changelog.py:200-234 | the loop computes the sections and footer of the groups |
| Changelog.RenderGroupAt | src/setuptools_changelog/changelog.py:200-234 | one pass of the group loop: on success the rendering of the groups up to and including group j, on a missing title or failing entry the error of the whole loop |
| Changelog.RenderFragments | src/setuptools_changelog/changelog.py:204-226 | the loop computes the chunks and references of a group |
| Changelog.AppendReferences | src/setuptools_changelog/changelog.py:232-234 | the loop appends each new reference |
| Changelog.ListingOrderIrrelevant | src/setuptools_changelog/changelog.py:158 | the order in which the directory lists its entries does not change the output |
| Changelog.OrderPosition | src/setuptools_changelog/changelog.py:162-166 | a type's place in the priority order tells its bucket |
| Changelog.FirstTypeLevel | src/setuptools_changelog/changelog.py:184-192 | the type that comes first in priority order among the fragments calls for the highest bump |
| Changelog.EarlierBucket | src/setuptools_changelog/changelog.py:186-191 | a known type no later in priority order than a major (minor) type is major (major or minor) itself |
| Changelog.FirstGroupLevel | src/setuptools_changelog/changelog.py:184-192 | the first group's bump is the highest bump any fragment calls for |
| Changelog.NewChangesTitle | src/setuptools_changelog/changelog.py:184-198 | a successful run has fragments and opens with the title of the current version bumped by the highest impact |
| Changelog.ChangesTitle | src/setuptools_changelog/changelog.py:184-198 | the same from the fragment paths on |
| Changelog.ReleaseLayout | src/setuptools_changelog/changelog.py:184-239 | the release text is the bumped title, the sections in group order and the sorted footnotes, with only trailing whitespace stripped |
| Changelog.ReleaseParts | src/setuptools_changelog/changelog.py:200-237 | section i renders group i under its title, and the footnote block holds each fragment footnote once, in strictly increasing order |
| Changelog.ChangesOfRelease | src/setuptools_changelog/changelog.py:159-239 | a successful run from the paths on is the release of the loaded fragments' groups, which are one per present type in priority order |
| Changelog.NewChangesRelease | src/setuptools_changelog/changelog.py:125-239 | the same from the directory listing on |
| Changelog.ReleaseTitle | src/setuptools_changelog/changelog.py:184-198 | the output opens with the title of the version bumped by the first group's bucket |
| Changelog.NoFragmentsNoVersion | src/setuptools_changelog/changelog.py:157-193 | once the version parses, the run fails on the next version exactly when no entry ends with `.rst` |
| Changelog.ChangesMissingVersion | src/setuptools_changelog/changelog.py:159-193 | the same, from the paths: exactly when there is no path |
| Changelog.GroupsMissingVersion | src/setuptools_changelog/changelog.py:184-193 | the same, from the fragments: exactly when there is no fragment |
| Changelog.ReleaseMissingVersion | src/setuptools_changelog/changelog.py:184-193 | the same, from the groups: exactly when there is no group |
| Changelog.GroupTypesKnown | src/setuptools_changelog/changelog.py:136-152 | every group of a successful grouping has a known type |
| Changelog.BadlyNamedFragment | src/setuptools_changelog/changelog.py:39-47 | a listed `.rst` entry without exactly two dots makes the run fail with `InvalidFragment` and the name message |
| Changelog.UnknownFragmentType | src/setuptools_changelog/changelog.py:140-149 | a fragment of unknown type makes the run fail on the first such fragment |
| Changelog.NewChangesErrors | src/setuptools_changelog/changelog.py:125-239 | every way the run can fail: a bad fragment (naming one of its paths), a bad version, no next version, a bad tracker, a type without title |
| Changelog.ReleaseErrors | src/setuptools_changelog/changelog.py:184-234 | from the groups on, the run fails only for lack of a fragment, for the tracker template, or for a known type without a title |
| Changelog.TitlesNeverMissing | src/setuptools_changelog/changelog.py:201 | after finalising, the run never fails on a missing section title |

## Left out

- The checks that the fragments directory exists and is a directory (lines 126-134) are left out. They need the filesystem; they warn and exit.
- `os.listdir`, `open(...).read()` and `print` are left out as I/O. The model takes the listing and a map from path to file text as parameters, and returns the printed text. `open` on a missing file raises; the model reads a path absent from the map as empty text instead. Every path the command reads comes from the listing, so the map is meant to hold them all.
- `datetime.now()` is left out as a clock. Today's date is a parameter, already formatted as text.
- `initialize_options` is left out. It derives the tracker from the project URL with `urlparse`, which is URL parsing of a foreign library. The tracker is a parameter of the command.
- The `issue_pattern` option is left out. Only its default, leading digits (line 71), is modelled; arbitrary regular expressions are not.
- `Render.Percent` models only `%s`, `%r`, `%a` and `%%` of `%` formatting. Other directives and flags are errors in the model, and `%r`/`%a` quote the number without Python's escaping rules.
- The `semver` library's `bump_*` functions are modelled by their effect on the three numbers (raise one part, zero those below). The library is not part of this model.
- `group_by_type` is called twice in `run`. The model calls it once, because both calls compute the same groups.
- The `distribution`, `Command` and `warn` plumbing of setuptools is left out. So are `setup.py` and the test fixtures.
- Python exceptions become values of `Failures.Error`. A `None` bucket makes `.strip()` raise `AttributeError`; it is modelled as `UnsetOption`. The exception messages are kept only where the code writes them.
- PyStr.SplitLines: the function's own contract says only that no line holds a boundary. Which lines it gives is stated by PyStr.SplitLinesRebuilds and PyStr.SplitLinesOfTerminated.
- PyStr.Join: the contract gives only the empty join and the opening part. The closing part is in PyStr.JoinEnds; the shape of a `\n  ` join is in Render.JoinIndented.
- SemVer.ParseVersion: the function's own contract gives only the error value and a leading digit. Which version a text parses to, and which texts fail, is stated by SemVer.ParseVersionDenotes.
- SemVer.Bump: the contract says the bump comes later, raises its component and which parts stay. That it is the least such version, and so the exact `semver.bump_*` result, is SemVer.BumpIsLeast with SemVer.BumpUnique.
- Fragments.RstItems: the contract gives membership and multiplicity. The kept order is stated by Fragments.RstItemsConcat and Fragments.RstItemsSorted.
- Render.Percent: the contract gives only the error value and that a success needs a `%`. The result is stated for the tracker's usual shapes by Render.TrackerUrl (one `%s`), Render.SubstitutePlain (no `%`) and Render.TrackerUrlWithoutPlaceholder. Templates with `%%`, `%r` or `%a` are modelled but have no lemma of their own.
- Render.RenderEntry: the contract gives only when it fails. The bullet and the footnote are stated by Render.RenderEntrySpec.
- Render.BodyText: the contract covers an empty body and a one-line body. A body of several lines is stated by Render.BulletText and Render.EntryLines.
- Render.AddReferences: the contract bounds the length only. What the footer holds is stated by Render.AddReferencesSpec.
- Render.RenderGroups: the contract gives one section per group. The sections are stated by Render.RenderGroupsSpec and the footer by Render.RenderGroupsFooterContents.
- Render.Document: the contract says only that the text is stripped. Its layout is stated by Render.DocumentLayout and Render.DocumentWhole.
- Render.FooterOrder: speaks of `sorted(footer)` alone; that this is the block printed last is Render.DocumentLayout.
- Changelog.NewChanges: the contract says only that the output is stripped. What it holds is stated by Changelog.NewChangesRelease, Changelog.ReleaseLayout and Changelog.ReleaseParts, and its title by Changelog.NewChangesTitle.
- Changelog.ChangesOf: the contract says only that the output is stripped. What it holds is stated by Changelog.ChangesOfRelease with Changelog.ReleaseLayout and Changelog.ReleaseParts.
- Changelog.Release: the contract says only that the output is stripped. What it holds is stated by Changelog.ReleaseLayout and Changelog.ReleaseParts.
- Changelog.ReleaseLayout: when a footnote's URL ends with whitespace, or the footer is empty and the last section does, the layout is stated up to that trailing whitespace, which `.strip()` removes.
- Options.ParseLine: the contract ties a success to stripped parts only. Which parts they are, the text on each side of the first `=`, is stated by Options.ParseLineParts.
- Options.PairsOf: the contract gives the length and some line without `=`. That pair k is line k's, and that the error is the first bad line's, is stated by Options.PairsOfSpec.
- Options.ParsedChangesTypes: for text that is not blank, the contract gives only that no key repeats. The keys, values and errors are stated by Options.ParsedTextSpec.
- Changelog.ChangeLog.Run: requires `Finalized`. setuptools runs `finalize_options` before `run`, and `run` on unfinalised options reads `None` fields.
