# Log-stream annotator

A Dafny model of `StreamToExpander`, the object that the crew's console
output is redirected into. Each chunk written to it goes through five steps:

1. The terminal colour and erase-line control sequences are stripped:
   ESC, `[`, digits or semicolons, then `m` (SGR) or `K` (EL), as in ECMA-48.
2. A task label is looked for, with the quoted form `"task" : "<v>"` taking
   priority over the loose form `task : <rest of line>`. A non-empty label
   raises a `:robot_face:` notification.
3. The colour cursor moves on, cyclically through
   `red, green, blue, orange`, when the chunk starts a new agent chain.
4. Five literal markers are wrapped as `:<colour>[marker]`.
5. The result is buffered. A raw chunk holding a line break flushes the whole
   buffer to the expander as one piece of markdown.

The modules follow those steps:

- `Strings` holds the pieces of Python's `str` the code relies on.
- `Ansi` models the escape-stripping `re.sub`.
- `TaskLabel` models the two `re.search` calls and the choice between them.
- `Markup` models the marker wrapping, both as the source's chain of
  `str.replace` calls and as an independent single-pass rewrite. The two are
  proved equal, and the rewrite is proved invertible.
- `Annotator` holds the class, with `Write` updating its fields in place.
  Beside it, the value-level `Step` and `Run` describe the same behaviour,
  and `Write` is proved to make exactly the change `Step` describes.

The two sinks, `st.toast` and `expander.markdown`, are modelled as the
sequences `toasts` and `markdown` on the object: each call appends what it
would have shown. The flushed piece is the concatenation of the buffered
fragments, and it keeps the chunk's own line break (main.py:99-101). So
writing `"partial"` and then `"rest\n"` flushes `"partialrest\n"` once
(`LineAssembly`).

## Model

| member | source | states |
|---|---|---|
| Annotator.StreamToExpander.constructor | main.py:61-65 | A new stream has an empty buffer, colour index 0 over the four-colour palette, and has emitted nothing. |
| Annotator.StreamToExpander.Write | main.py:67-102 | Writing a chunk keeps the colour index inside the palette. It leaves the stream in exactly the state `Step` gives for the old state and the chunk. |
| Annotator.StreamToExpander.Notify | main.py:70-79 | The notifications grow by exactly the chunk's notification; buffer, colour index and flushed markdown are untouched. |
| Annotator.StreamToExpander.Colourise | main.py:81-97 | The colour index becomes `NextIndex` of the old one. The tagged text is the five replacements in the new colour. Nothing else changes. |
| Annotator.TagAgents | main.py:87-97 | Continuing after the chain-entered replacement, the four further guarded replacements give the full chain of five. |
| Annotator.ReplaceIfPresent | main.py:87-89 | A replacement guarded by `marker in text` equals the unguarded replacement, and leaves text without the marker unchanged. |
| Annotator.NextIndex | main.py:81-82 | The new colour index is in the palette, and it differs from the old one exactly when the cleaned chunk contains the chain-entered marker. |
| Annotator.NextIndexStep | main.py:81-82 | The index advances by one modulo 4 when a chain starts, however many times the marker occurs, and otherwise stays. |
| Annotator.ColourAfterCounts | main.py:81-82 | After any sequence of chunks, the colour index is the start plus the number of chain-starting chunks, modulo 4. |
| Annotator.ColourAfterFullCycle | main.py:82 | Four chain-starting chunks bring the colour index back to its start. |
| Annotator.RunColour | main.py:81-82 | The colour index of a run of writes is the one `ColourAfter` computes from the chunks. |
| Annotator.FourChainsReturn | main.py:81-82 | After any run of writes containing exactly four chain-starting chunks, the stream shows the colour it started with. |
| Annotator.Run | main.py:67-102 | Writing chunks one after the other keeps the colour index inside the palette; what the run flushes and keeps is stated by `RunKeepsText`, `RunFlushCount` and `RunColour`. |
| Annotator.Step | main.py:67-102 | One write keeps the colour index in range. It adds at most one notification and flushes at most one piece, without disturbing earlier ones. |
| Annotator.StepFlushes | main.py:78-102 | A chunk with a line break empties the buffer and flushes the old buffer followed by the fragment. A chunk without one appends the fragment and flushes nothing. The notification list grows by the chunk's notification. |
| Annotator.StepKeepsText | main.py:99-102 | One write loses no text: flushed plus buffered text grows by exactly the chunk's fragment. |
| Annotator.RunKeepsText | main.py:99-102 | Over any run, the flushed and buffered text is the earlier text followed by every fragment, in order. |
| Annotator.RunFlushCount | main.py:100-102 | Over any run, the number of flushed pieces grows by the number of chunks holding a line break: one flush per such chunk, not per line. |
| Annotator.LineAssembly | main.py:99-102 | A plain chunk without a line break followed by a plain chunk with one is flushed once, as their concatenation. The buffer ends empty and the colour stays 0. |
| Annotator.PlainFragment | main.py:68-97 | A chunk without ESC and without markers is buffered exactly as written and leaves the colour alone. |
| Annotator.Fragment | main.py:68-97 | The text a chunk adds to the buffer is the cleaned chunk tagged in the colour chosen after it, and removing the colour tags from it gives back the cleaned chunk. |
| Annotator.ReplacedIsFragment | main.py:84-97 | The five replacements in the new colour equal the single-pass tagging of the cleaned chunk. |
| Ansi.ParamRunEnd | main.py:68 | Greedy `[0-9;]*` ends where the run of digits and semicolons ends: every character it covers is a parameter character and the next one is not. |
| Ansi.EscapeLen | main.py:68 | A control sequence starts the text exactly when the result is positive. That length is the only one at which a full control sequence matches. |
| Ansi.StripAnsi | main.py:68 | Stripping never lengthens the chunk. |
| Ansi.StripAnsiUnchanged | main.py:68 | The chunk passes through unchanged if and only if it holds no control sequence. |
| Ansi.StripAnsiPlain | main.py:68 | A chunk without ESC passes through unchanged. |
| Ansi.StripAnsiClean | main.py:68 | When every ESC of the chunk starts a control sequence, the cleaned text holds no ESC and no control sequence. |
| Ansi.StripAnsiSplices | main.py:68 | Being a single pass, the substitution can leave a control sequence behind: ESC ESC `[m[m` becomes ESC `[m`. |
| TaskLabel.SkipSpaceUnique | main.py:70-71 | Greedy `\s*` stops at the one place where the whitespace run ends. |
| TaskLabel.ClosingQuoteFirst | main.py:70 | Lazy `(.*?)"` ends at the first quote after the opening one, when no line break comes before that quote. |
| TaskLabel.LineEndUnique | main.py:71 | `[^\n]*` runs to the first line break or the end of the text. |
| TaskLabel.ObjectMatchAtShape | main.py:70 | The quoted form matches at a position exactly when the text has the shape `"task"`, spaces, `:`, spaces, `"value"` there. The value captured is the slice between the quotes. |
| TaskLabel.ObjectMatchAt | main.py:70 | A value the quoted form captures at one position holds no quote and no line break. |
| TaskLabel.ObjectShapeDetermined | main.py:70 | A match shape of the quoted form is unique, and the matcher captures its value. |
| TaskLabel.FindObjectTask | main.py:70 | The quoted search's value holds no quote and no line break. |
| TaskLabel.FindObjectTaskFinds | main.py:70 | The quoted search finds nothing exactly when no position has the quoted shape. |
| TaskLabel.FindObjectLeftmost | main.py:70 | The search reports the leftmost match of the quoted form. |
| TaskLabel.UnquotedHasNoObject | main.py:70 | Text without a quote character never matches the quoted form. |
| TaskLabel.LooseMatchAtShape | main.py:71 | The loose form matches at a position exactly when the text has the shape `task`, spaces, `:`, spaces, rest of line there. The capture is that rest of the line. |
| TaskLabel.LooseMatchAt | main.py:71 | A text the loose form captures at one position holds no line break and does not start with whitespace, since `\s*` has consumed it. |
| TaskLabel.LooseShapeDetermined | main.py:71 | A match shape of the loose form is unique, and the matcher captures its text. |
| TaskLabel.FindLooseTask | main.py:71 | The loose search's text holds no line break and does not start with whitespace. |
| TaskLabel.FindLooseLeftmost | main.py:71 | The loose search reports the leftmost match of the loose form. |
| TaskLabel.FindLooseTaskFinds | main.py:71 | The loose search finds nothing exactly when no position has the loose shape. |
| TaskLabel.TaskLabel | main.py:72-76 | A label exists exactly when one of the two forms matches, and it never holds a line break. Which value it takes is stated by `LabelFromQuoted` and `LabelFromLoose`. |
| TaskLabel.LabelFromQuoted | main.py:70-74 | For every chunk: when the leftmost match of the quoted form has its value between the quotes at `p` and `q`, the label is that slice, untrimmed and even when empty, whatever the loose form finds. |
| TaskLabel.LabelFromLoose | main.py:70-76 | For every chunk in which the quoted form matches nowhere: when the leftmost match of the loose form captures `s[p..q]`, the label is that text stripped. |
| TaskLabel.QuotedLabelWins | main.py:70-76 | A chunk whose first quote opens `"task": "<v>"` is labelled `v` exactly as written, even when empty and whether or not the loose form matches too. |
| TaskLabel.LooseLabelTrimmed | main.py:71-76 | A quote-free chunk `task:<v>`, with `v` on one line, is labelled with `v` stripped, whatever whitespace follows the colon: `task: foo ` is labelled `foo`. |
| TaskLabel.Notification | main.py:78-79 | A chunk raises at most one notification. It raises one exactly when its label exists and is non-empty, and the text is `:robot_face: ` followed by the label. |
| Markup.UnannotateAnnotate | main.py:84-97 | Removing the tags from the tagged text gives back the text: tagging loses nothing. |
| Markup.ReplaceAfterAnnotate | main.py:87-97 | One more `str.replace` pass, for a marker separated from the earlier ones, turns the single pass over the earlier markers into the single pass with that marker added. |
| Markup.ReplaceEachIsAnnotate | main.py:84-97 | For separated markers, each longer than the colour name, one replacement per marker in order equals the single-pass rewrite. |
| Markup.Replaced | main.py:84-97 | The chain of replacements cut after no marker is the text itself; `ReplacedIsAnnotate` states what the longer chains give. |
| Markup.ReplacedIsEach | main.py:84-97 | The source's chain cut after `n` markers is the generic chain over the first `n` markers. |
| Markup.ReplacedIsAnnotate | main.py:84-97 | For any short colour name, the first `n` replacements equal the single pass over the first `n` markers. |
| Markup.ReplaceMarkersIsAnnotate | main.py:84-97 | The source's five replacements equal the single pass over all five markers. |
| Markup.MarkersSeparated | main.py:84-97 | No marker occurs inside an earlier marker's text or overlaps it, so no replacement rewrites an earlier tag. |
| Markup.MarkersWellFormed | main.py:84-97 | Every marker is at least 15 characters long and holds no `:`, `[` or `]`. |
| Markup.AnnotatePlain | main.py:87-97 | Text in which no marker starts anywhere is left unchanged. |
| Markup.AbsentMarkersPlain | main.py:81-97 | Text not containing any of the five markers is left unchanged. |
| Markup.ShortTextPlain | main.py:84-97 | Text shorter than every marker is left unchanged. |
| Markup.AnnotateCopies | main.py:87-97 | Up to the first marker, the rewrite copies the text. |
| Strings.Contains | main.py:81 | `p in s` holds when `s` starts with `p`, and only when `p` is no longer than `s`. |
| Strings.ContainsOccurs | main.py:81 | `p in s` holds exactly when some index of `s` starts an occurrence of `p`. |
| Strings.ReplaceAll | main.py:84-85 | `str.replace` leaves text not containing the pattern unchanged. |
| Strings.ReplaceAllSkips | main.py:84-85 | `str.replace` leaves a prefix alone when no occurrence starts inside it. |
| Strings.Concat | main.py:101 | `''.join` of no fragments is empty, of one fragment is that fragment, and otherwise starts with the first fragment. |
| Strings.ConcatAppend | main.py:101 | Joining two lists of fragments is joining each and concatenating. |
| Strings.Trim | main.py:76 | `strip()` gives a result that is no longer than the text and neither starts nor ends with whitespace. |
| Strings.TrimSkips | main.py:76 | Whitespace in front of a text makes no difference to `strip()`. |
| Strings.TrimIsSlice | main.py:76 | `strip()` keeps a slice of the text with only whitespace before and after it. |
| Strings.TrimKeeps | main.py:76 | `strip()` brings in no character the text did not hold. |

## Left out

- Ansi.StripAnsi: the cleaned text is not promised free of control sequences. One pass of the substitution can splice a new sequence together (`StripAnsiSplices`). The promise holds only when every ESC starts a sequence (`StripAnsiClean`).
- The relative order of notifications and markdown pieces is not recorded: the two sinks are separate sequences, each in its own order.
- `unsafe_allow_html=True` on the markdown call is a rendering option of the expander and is not modelled.
- Annotator.StreamToExpander.Notify, Colourise and Annotator.TagAgents, ReplaceIfPresent: these split the single body of `write` into smaller methods. Their calls run in the order of that body.
- Annotator.StreamToExpander.Colourise: the wrap-around is `% len(colors)`, and `WrapAround` shows that this equals `% 4` for the fixed palette. The specification functions use `% 4` directly.
- The regular-expression engine itself is not modelled. Only the two patterns of the label search and the one pattern of the escape stripping are written out, as matchers at one position plus a leftmost scan. Python's IGNORECASE folding is included for the letters of `task`: `s` also matches U+017F and `k` also matches U+212A.
- The Streamlit page, the password gate and the widgets are left out, because they are presentation code and environment lookups.
- The crew construction and `kickoff` are left out, because their behaviour lives in a library whose code is not part of this model.
- `generate_image` is left out, because it is a thin wrapper over the image client.
- The Facebook, Instagram and Twitter posting functions and their dispatch are left out, because they are network calls whose only logic is to try when a token is set.
- The redirection of `sys.stdout` into the stream is left out, because it is process-wide I/O plumbing. The model starts from the chunks that reach `write`.
