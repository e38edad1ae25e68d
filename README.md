# StripHTML postprocessor and Markdown version string, in Dafny

This project models two pieces of the Python Markdown toolchain that a
static-site build uses:

- `pymdownx.striphtml`: the `StripHtmlPostprocessor`, which runs over the
  HTML that Markdown rendered. It removes comments when asked to. In every
  opening tag, including `<style>` and `<script>` tags, it also deletes the
  configured attributes that carry a value, and `on...` event handlers with
  a value when asked to. The expression it uses for this does not know
  where a quoted value ends, so it can also delete text inside a quoted
  value (`BadAttributes.FilterEntersQuotes`).
- `markdown.__meta__`: `_get_version`, which builds the PEP 440 version
  string from the five-part `__version_info__` tuple.

Files and modules:

- `wrappers.dfy` (`Wrappers`): `Option` and `Result`.
- `chars.dfy` (`Chars`): the character classes that the regular expressions use (`\s`, `\w`, `[\w\-:]`, `[\w\:\.\-]` and bare values), plus index-based scanning helpers.
- `attr_grammar.dfy` (`AttrGrammar`): the attribute grammar that both expressions share, as datatypes (`Attr`, `Assign`), with scanners proved to find exactly the grammar's reading.
- `tag_scanner.dfy` (`TagScanner`): `RE_TAG_HTML`, its four alternatives, and the left-to-right scan that `re.sub` makes with it.
- `bad_attributes.dfy` (`BadAttributes`): `TAG_BAD_ATTR` and `re_attributes.sub('', attrs)`.
- `strip_html.dfy` (`StripHtml`): `__init__`, `repl` and `run`.
- `meta.dfy` (`Meta`): `_get_version`, `__version__`, and a parser that reads a version string back.

Each regular expression is modelled as a deterministic scanner over string indices. Python's backtracking engine tries the whole of a greedy run first and gives characters back only when what follows fails. In these expressions, giving back a character never makes a match possible where the whole run fails. The one exception is the trailing `\s*` before `(?=\r?\n)` in a standalone comment, which gives back up to the last line feed of the run (`TagScanner.LastNewline`). A shorter run can allow a different match where the whole run already succeeds (in `<a b=c/>` the value could stop before `/`), but the engine returns the first match it finds, which is the greedy one. A lazy `*?` stops at the first occurrence of what follows it. So the match that Python's engine finds is the one the scanners compute. The module comments spell this out.

## Model

| member | source | states |
|---|---|---|
| `StripHtml.Init` | build/buildMD/pymdownx/striphtml.py:62-74 | keeps `strip_comments`; the expression is absent exactly when no attribute is listed and event handlers are kept; otherwise its alternatives are the stripped names in order, then `on[\w]+` when event handlers go |
| `StripHtml.EscapedNames` | build/buildMD/pymdownx/striphtml.py:67 | one literal alternative per configured name, in order, with the name stripped |
| `StripHtml.StripSpec` | build/buildMD/pymdownx/striphtml.py:67 | `str.strip()` returns a slice of its argument, with only whitespace removed before and after it and none left at either end |
| `StripHtml.TrimStartSpec` | build/buildMD/pymdownx/striphtml.py:67 | the left half of `strip`: a suffix, preceded only by whitespace, that does not start with whitespace |
| `StripHtml.TrimEndSpec` | build/buildMD/pymdownx/striphtml.py:67 | the right half of `strip`: a prefix, followed only by whitespace, that does not end with whitespace |
| `StripHtml.StripKeeps` | build/buildMD/pymdownx/striphtml.py:67 | `strip` leaves alone a string with no whitespace at either end |
| `StripHtml.BadNamesOf` | build/buildMD/pymdownx/striphtml.py:67-72 | the configured expression's name group matches a name if and only if the name equals a stripped configured name, or event handlers go and the name is `on` followed by word characters |
| `StripHtml.ConfiguredAttrNames` | build/buildMD/pymdownx/striphtml.py:67-72 | when every stripped name is a non-empty attribute name, each alternative of the expression is an attribute-name pattern |
| `StripHtml.CommentRepl` | build/buildMD/pymdownx/striphtml.py:81-82 | a comment becomes empty if and only if comments are stripped, and is kept verbatim otherwise |
| `StripHtml.OpenRepl` | build/buildMD/pymdownx/striphtml.py:94-99 | with no expression an opening tag is unchanged, whatever its attributes; with one whose names are attribute names, and when no attribute value holds `=` after a whitespace character, the tag keeps its name and its close and its attribute text becomes the attributes that are not bad, in order |
| `StripHtml.ScriptRepl` | build/buildMD/pymdownx/striphtml.py:84-90 | the same for a `<style>`/`<script>` element, under the same conditions: its body and closing tag are kept |
| `StripHtml.ReplDeletesOnly` | build/buildMD/pymdownx/striphtml.py:78-100 | `repl` only deletes characters: its result is a subsequence of the matched text |
| `StripHtml.ReplUnconfigured` | build/buildMD/pymdownx/striphtml.py:78-100 | when nothing is to be stripped, `repl` returns the match unchanged |
| `StripHtml.RunDeletesOnly` | build/buildMD/pymdownx/striphtml.py:102-106 | `run` only deletes: its output is a subsequence of its input and no longer than it |
| `StripHtml.RunUnconfigured` | build/buildMD/pymdownx/striphtml.py:102-106 | with comments kept and no expression, `run` returns its input, and so would the substitution |
| `StripHtml.RunWithoutTags` | build/buildMD/pymdownx/striphtml.py:102-106 | a text without `<` comes back unchanged whatever the configuration |
| `StripHtml.RunCommentsOnly` | build/buildMD/pymdownx/striphtml.py:81-82 | when only comments are stripped, `run` is the scanned text with exactly the comment matches left out |
| `StripHtml.DropComments` | build/buildMD/pymdownx/striphtml.py:81-82 | keeps exactly the segments that are not comments |
| `StripHtml.ScannedOpenTags` | build/buildMD/pymdownx/striphtml.py:40-42 | every opening tag that the scan of a document finds is `<name`, then a run of well-formed attributes, then optional spaces and `>` or `/>`; when no attribute value holds `=` after a whitespace character, `repl` rewrites it to the same tag with exactly the bad attributes removed, for every reading of its attribute text as such a run |
| `StripHtml.ScannedScripts` | build/buildMD/pymdownx/striphtml.py:84-90 | every `<style>`/`<script>` element that the scan finds is the element name, a run of well-formed attributes, and the rest of the element up to the first closing tag of that name; `repl` keeps the name and that rest and, when no attribute value holds `=` after a whitespace character, removes exactly the bad attributes, for every reading of its attribute text as such a run |
| `StripHtml.ScannedComments` | build/buildMD/pymdownx/striphtml.py:81-82 | every comment that the scan finds is a comment with the whitespace the standalone form takes; `repl` deletes it if and only if comments are stripped, and keeps it verbatim otherwise |
| `StripHtml.ScannedCloseTags` | build/buildMD/pymdownx/striphtml.py:91-92 | every closing tag that the scan finds is `</name`, optional spaces and `>`, and `repl` returns it unchanged |
| `StripHtml.RunAsWrittenFails` | build/buildMD/pymdownx/striphtml.py:102-106 | `run` as written fails if and only if comments are kept; when it succeeds it agrees with the corrected `run` |
| `StripHtml.KeepCommentsFails` | build/buildMD/pymdownx/striphtml.py:105 | with comments kept and event handlers stripped, `run` as written raises, although the corrected `run` substitutes |
| `TagScanner.ScanRender` | build/buildMD/pymdownx/striphtml.py:106 | the segments that the scan produces, put back together, are the input text: `sub` copies everything that is not matched |
| `TagScanner.ScanNext` | build/buildMD/pymdownx/striphtml.py:106 | one step of `sub`: the match at an index when there is one, else one copied character; the segment covers exactly the consumed text |
| `TagScanner.MatchAtRaw` | build/buildMD/pymdownx/striphtml.py:31-47 | the groups of a match put back together are the matched text |
| `TagScanner.MatchShape` | build/buildMD/pymdownx/striphtml.py:31-47 | every match of the expression has the shape of the alternative that matched it |
| `TagScanner.ScanShapes` | build/buildMD/pymdownx/striphtml.py:31-47 | every segment of the scan is well formed |
| `TagScanner.CommentShape` | build/buildMD/pymdownx/striphtml.py:34 | a comment match is optional leading whitespace, `<!--`, a body in which no `-->` starts, `-->` and optional trailing whitespace |
| `TagScanner.StandaloneShape` | build/buildMD/pymdownx/striphtml.py:34 | the same for the first alternative, which the text after the match continues with a line feed |
| `TagScanner.InlineShape` | build/buildMD/pymdownx/striphtml.py:34 | the same for the second alternative, with no whitespace around it: the match is exactly `<!--`, a body in which no `-->` starts, and the first `-->` |
| `TagScanner.ScriptShape` | build/buildMD/pymdownx/striphtml.py:35-38 | a script match opens with `<style` or `<script`, then has an attribute run, optional spaces and `>`, a body in which no closing tag of the same name starts, and that closing tag |
| `TagScanner.ScriptRestShape` | build/buildMD/pymdownx/striphtml.py:38 | `script_rest` is spaces, `>`, a body in which no `</name\s*>` starts, and `</name\s*>` |
| `TagScanner.OpenShape` | build/buildMD/pymdownx/striphtml.py:40-42 | an opening-tag match is `<name`, an attribute run, then spaces and `>` or `/>` |
| `TagScanner.CloseTagShape` | build/buildMD/pymdownx/striphtml.py:43 | a closing-tag match is `</name`, optional spaces and `>` |
| `TagScanner.TagCloseShape` | build/buildMD/pymdownx/striphtml.py:42 | the `close` group is optional spaces, then `>` or `/>` |
| `TagScanner.NoMatchWithoutTag` | build/buildMD/pymdownx/striphtml.py:31-47 | no alternative matches where no `<` follows |
| `TagScanner.ScanWithoutTags` | build/buildMD/pymdownx/striphtml.py:106 | without `<`, the scan is plain text only |
| `AttrGrammar.AttrsEndSound` | build/buildMD/pymdownx/striphtml.py:37 | the attribute scanner stops after a run of well-formed attributes, so everything it reads parses as such a run |
| `AttrGrammar.AttrsEndOf` | build/buildMD/pymdownx/striphtml.py:41 | a run of well-formed attributes followed by a point where no further attribute can start is read in full |
| `AttrGrammar.AttrEndOf` | build/buildMD/pymdownx/striphtml.py:41 | one well-formed attribute at a boundary is read exactly |
| `AttrGrammar.AttrEndSound` | build/buildMD/pymdownx/striphtml.py:41 | what the attribute scanner reads is one well-formed attribute |
| `AttrGrammar.AssignEndSound` | build/buildMD/pymdownx/striphtml.py:41 | what the assignment scanner reads is `\s*=\s*` and a value |
| `AttrGrammar.AssignEndOf` | build/buildMD/pymdownx/striphtml.py:53 | a well-formed assignment is read exactly |
| `AttrGrammar.ValueEndSound` | build/buildMD/pymdownx/striphtml.py:53 | what the value scanner reads is a double-quoted, single-quoted or bare value |
| `AttrGrammar.ValueEndOf` | build/buildMD/pymdownx/striphtml.py:53 | a value followed by no bare-value character is read exactly |
| `BadAttributes.FilterJoin` | build/buildMD/pymdownx/striphtml.py:49-56 | on a run of well-formed attributes in which no value holds `=` after a whitespace character, the substitution deletes exactly the bad attributes and keeps the others in order |
| `BadAttributes.Kept` | build/buildMD/pymdownx/striphtml.py:49-56 | an attribute is kept if and only if it is not bad, and nothing else appears |
| `BadAttributes.FilterEntersQuotes` | build/buildMD/pymdownx/striphtml.py:49-56 | the expression also matches inside a quoted value: with `id` configured, ` title=" id=x "` loses its inner ` id=x` although its only attribute is `title` |
| `BadAttributes.BadInsideValue` | build/buildMD/pymdownx/striphtml.py:49-56 | wherever a bad attribute's text stands at a boundary, even inside another value, the substitution changes the text |
| `BadAttributes.FilterDeletesOnly` | build/buildMD/pymdownx/striphtml.py:87 | `re_attributes.sub('', attrs)` only deletes; it returns its input if and only if the expression matches nowhere, and is shorter otherwise |
| `BadAttributes.FilterAttr` | build/buildMD/pymdownx/striphtml.py:49-56 | one attribute at a boundary, whose value holds no `=` after a whitespace character, is deleted if it is bad and copied otherwise |
| `BadAttributes.FilterRun` | build/buildMD/pymdownx/striphtml.py:49-56 | the same over a whole run of attributes up to the end of the text |
| `BadAttributes.BadAttrEndOf` | build/buildMD/pymdownx/striphtml.py:52-53 | one repetition matches at a well-formed attribute if and only if its name is bad and it has a value, and then it ends where the attribute ends |
| `BadAttributes.NameEndSound` | build/buildMD/pymdownx/striphtml.py:52 | where a name alternative matches, the text it covers is a non-empty name of attribute characters that the alternative accepts: the configured name itself, or `on` and word characters |
| `BadAttributes.AltEndSound` | build/buildMD/pymdownx/striphtml.py:52-53 | where the alternation is followed by an assignment, it covered a bad name of attribute characters, and the assignment starts where that name ends |
| `BadAttributes.BadAttrEndSound` | build/buildMD/pymdownx/striphtml.py:52-53 | whatever one repetition matches is the text of a well-formed attribute with a bad name and a value (the converse of `BadAttrEndOf`) |
| `BadAttributes.BadRunSound` | build/buildMD/pymdownx/striphtml.py:51-54 | whatever the starred expression matches is a run of well-formed attributes, each with a bad name and a value |
| `BadAttributes.FilterDeletesBad` | build/buildMD/pymdownx/striphtml.py:87 | every stretch of text that `re_attributes.sub('', attrs)` deletes is a non-empty run of well-formed attributes, each with a bad name and a value |
| `BadAttributes.AltEndOf` | build/buildMD/pymdownx/striphtml.py:52 | the name alternation, followed by `\s*=\s*value`, matches at a name if and only if the name is bad and has an assignment |
| `BadAttributes.NoBadInValueAt` | build/buildMD/pymdownx/striphtml.py:52-53 | no repetition starts inside a value that holds no `=` after a whitespace character |
| `BadAttributes.SubDeletesOnly` | build/buildMD/pymdownx/striphtml.py:87 | `sub('', …)` returns a subsequence of its input, no longer than it |
| `BadAttributes.SubUnchangedIff` | build/buildMD/pymdownx/striphtml.py:87 | `sub('', …)` returns its input if and only if nothing matches, and is strictly shorter otherwise |
| `BadAttributes.SubsequenceAppend` | build/buildMD/pymdownx/striphtml.py:106 | deleting from two pieces deletes from their concatenation, which is how `sub` assembles its output |
| `Meta.GetVersionFails` | build/buildMD/markdown/__meta__.py:34-35 | `_get_version` fails if and only if the tuple does not have five elements or its fourth is not a known stage |
| `Meta.PatchRule` | build/buildMD/markdown/__meta__.py:37-38 | the release number is `major.minor` when the patch is 0 and `major.minor.patch` otherwise |
| `Meta.StageSuffixes` | build/buildMD/markdown/__meta__.py:40-44 | `dev` appends `.devN`, `alpha`/`beta`/`rc` append `aN`/`bN`/`rcN`, and `final` appends nothing |
| `Meta.ReleaseNumberPrefix` | build/buildMD/markdown/__meta__.py:37-46 | the version string starts with the release number |
| `Meta.NatToString` | build/buildMD/markdown/__meta__.py:38 | `str` of a non-negative integer is a non-empty string of digits without a leading zero |
| `Meta.DigitsValueOf` | build/buildMD/markdown/__meta__.py:38 | the digits of `str(n)` denote `n` |
| `Meta.MapStr` | build/buildMD/markdown/__meta__.py:38 | `map(str, …)` converts each element, in order |
| `Meta.GetVersionOf` | build/buildMD/markdown/__meta__.py:32-46 | the version string of a release, piece by piece |
| `Meta.ParseGetVersion` | build/buildMD/markdown/__meta__.py:32-46 | reading the version string back gives the release, with the serial of a final release taken as 0: the string is unambiguous |
| `Meta.GetVersionInjective` | build/buildMD/markdown/__meta__.py:32-46 | two releases have the same version string if and only if they agree once a final release's serial is ignored |
| `Meta.ParseSuffixOf` | build/buildMD/markdown/__meta__.py:40-44 | the suffix reads back as its stage and serial |
| `Meta.DevExample` | build/buildMD/markdown/__meta__.py:24 | `(1, 1, 2, 'dev', 0)` gives `1.1.2.dev0` |
| `Meta.AlphaExample` | build/buildMD/markdown/__meta__.py:25 | `(1, 1, 2, 'alpha', 1)` gives `1.1.2a1` |
| `Meta.BetaExample` | build/buildMD/markdown/__meta__.py:26 | `(1, 2, 0, 'beta', 2)` gives `1.2b2` |
| `Meta.RcExample` | build/buildMD/markdown/__meta__.py:27 | `(1, 2, 0, 'rc', 4)` gives `1.2rc4` |
| `Meta.FinalExample` | build/buildMD/markdown/__meta__.py:28 | `(1, 2, 0, 'final', 0)` gives `1.2` |
| `Meta.VersionIs` | build/buildMD/markdown/__meta__.py:29-49 | `__version__` is `3.3.4` |

## Left out

- `\w` is modelled as ASCII `[A-Za-z0-9_]`. Python's `re.UNICODE` also counts non-ASCII letters and digits as word characters. `\s` is modelled as Python's full whitespace list.
- `re.compile` and `re.escape` are not modelled as a general regular-expression engine. The two expressions are modelled by hand-written scanners, and an escaped name by a literal alternative.
- The `md` argument of `__init__` and the `Postprocessor` base class are not modelled: they only register the object with Markdown.
- `StripHtmlExtension` and `makeExtension` (configuration plumbing) are not part of this model.
- `BadAttributes.FilterJoin` states the exact deletion only for runs in which no attribute value holds `=` after a whitespace character. In such a value the filter can match inside the quotes, as `BadAttributes.FilterEntersQuotes` shows, and the result is not a list of whole attributes.
- `BadAttributes.FilterAttr` requires the same of the one attribute it reads, for the same reason.
- `BadAttributes.FilterRun` requires the same of every attribute of the run, for the same reason.
- `BadAttributes.NoBadInValueAt` requires the same of the value, for the same reason: otherwise a repetition can start inside it.
- `StripHtml.OpenRepl` states the exact deletion only when the expression's names are non-empty attribute names and no attribute value holds `=` after a whitespace character. It relies on `BadAttributes.FilterJoin`. Without an expression it needs neither condition.
- `StripHtml.ScriptRepl` has the same conditions as `StripHtml.OpenRepl`, for the same reason.
- `StripHtml.ScannedOpenTags` states the exact deletion only under the same conditions. It states the shape of every opening tag without them.
- `StripHtml.ScannedScripts` has the same conditions as `StripHtml.ScannedOpenTags`.
- Configured names that are empty, or that hold characters outside `[\w\-:]`, are modelled: `BadAttributes.Filter` runs the substitution with each name as a literal alternative. The lemmas that read attributes against the expression do require every name to be a non-empty attribute name. These are `BadAttributes.AltEndOf`, `BadAttributes.BadAttrEndOf`, `BadAttributes.AltEndSound`, `BadAttributes.BadAttrEndSound`, `BadAttributes.BadRunSound`, `BadAttributes.FilterDeletesBad`, `BadAttributes.NoBadInValueAt`, `BadAttributes.FilterAttr`, `BadAttributes.FilterRun`, `BadAttributes.FilterJoin` and `BadAttributes.BadInsideValue`, and through them `StripHtml.OpenRepl`, `StripHtml.ScriptRepl`, `StripHtml.ScannedOpenTags` and `StripHtml.ScannedScripts`. `StripHtml.ConfiguredAttrNames` shows that a configuration meets this condition when every stripped name is a non-empty attribute name.
- `Meta.GetVersion`: the tuple holds integers and strings only. Booleans (which compare equal to 0 and 1 in Python) and other types are not modelled.
- `markdown/test_tools.py` (test helpers) is not part of this model.

## Findings

| source | as written | input that shows it | evidently intended | confidence | as-written member | corrected member |
|---|---|---|---|---|---|---|
| build/buildMD/pymdownx/striphtml.py:105 | `run` reads `self.strip_js_on_attributes`, which `__init__` never sets, whenever `strip_comments` is false, so it raises `AttributeError` | `StripHtmlPostprocessor(False, True, [], md).run(text)` | substitute whenever comments or attributes are to be stripped; event-handler stripping always sets `re_attributes` | not executed | `StripHtml.RunAsWritten` (`StripHtml.KeepCommentsFails`) | `StripHtml.Run` |
