# Tours bike predictor: the app's text and validation helpers

The Streamlit app `my-streamlit-app/streamlit_app.py` predicts daily bicycle counts in Tours.
Around its estimator call it uses four small, deterministic helpers. This project models
them in Dafny and proves what they promise:

- **Translation lookup** (`get_text`). A two-language table is consulted. An unknown
  language falls back to English, and an unknown key comes back as itself.
  Module `Translations`.
- **Required-column gate** of the batch page. `missing_cols` lists the nine canonical
  feature names an uploaded table lacks, in canonical order. Only when that list is empty
  does the estimator receive `df[required_cols]`: the nine columns in canonical order.
  Module `RequiredColumns`.
- **README image rewrite** (`process_markdown_images`). A single `re.sub` with the pattern
  `!\[(.*?)\]\(captures/(.*?)\)` turns every `![alt](captures/path)` into
  `![alt](../doc/captures/path)`. Module `MarkdownImages`.
  - `ImageAt` states when the pattern matches. Python's `.` never matches a newline.
  - `LeastImage` states which match the backtracking matcher reports: with two lazy
    groups, the shortest alt text, then the shortest path.
  - `MatchImage` finds the first `](captures/` on the line, then the first `)` after it on
    the line. It is proved to return exactly that least match, and to return nothing
    exactly when the pattern cannot match. A longer alt text never helps, because it
    cannot cross the end of the line either.
  - `Tokenize` is the substitution's left-to-right, non-overlapping scan.
- **Day-type summary** of a single prediction. The labels of the ticked flags are appended
  in the order weekend, holiday, vacation, then joined with `" • "`. With no flag ticked
  the summary is `"-"`. Module `DayFlags`, with an imperative method that appends like
  the page does.

Shared pieces: `Wrappers` (Option, Result), and `Sequences` (subsequences,
duplicate-freedom, Python's `str.join`).

Two points about the code:

- The batch path's refusal is not an exception: the page shows the missing names
  (`streamlit_app.py:467`) and skips the estimator call. It is modelled as
  `Failure(missing)` of `PrepareBatch`.
- `required_cols` and the flag order are taken from `streamlit_app.py:453-463` and
  `:415-421`.

## Model

| member | source | states |
|---|---|---|
| `Translations.GetText` | my-streamlit-app/streamlit_app.py:225-229 | `get_text` itself; its properties are stated by `GetTextTotal`, `GetTextKnown`, `UnknownLanguageIsEnglish` and `MissingKeyIsEchoed` |
| `Translations.EffectiveLanguage` | my-streamlit-app/streamlit_app.py:227-228 | the consulted language is always in the table: the requested one if present, English otherwise |
| `Translations.GetTextKnown` | my-streamlit-app/streamlit_app.py:225-229 | for a language in the table and a key in its dictionary, the lookup returns that entry |
| `Translations.UnknownLanguageIsEnglish` | my-streamlit-app/streamlit_app.py:227-229 | for the two-language table, any language other than "fr" and "en" gives the same text as "en" |
| `Translations.MissingKeyIsEchoed` | my-streamlit-app/streamlit_app.py:227-229 | a key absent from the consulted dictionary (the requested language's, or English's for a language the table lacks) is returned unchanged |
| `Translations.GetTextTotal` | my-streamlit-app/streamlit_app.py:225-229 | the lookup never fails: it returns the key or an entry of some dictionary of the table |
| `RequiredColumns.MissingFrom` | my-streamlit-app/streamlit_app.py:464 | the filter keeps exactly the names not among the columns, as a subsequence of the name list |
| `RequiredColumns.MissingColumns` | my-streamlit-app/streamlit_app.py:453-464 | `missing_cols` holds exactly the required names absent from the columns and keeps canonical order |
| `RequiredColumns.MissingColumnsShape` | my-streamlit-app/streamlit_app.py:453-464 | the missing list has no duplicates and at most nine entries |
| `RequiredColumns.NoneMissingIff` | my-streamlit-app/streamlit_app.py:464-468 | nothing is reported missing if and only if all nine required names are columns |
| `RequiredColumns.TwoMissingExample` | my-streamlit-app/streamlit_app.py:453-464 | a table lacking only `t2m_min` and `is_holiday` is told `["t2m_min", "is_holiday"]` |
| `RequiredColumns.SelectColumns` | my-streamlit-app/streamlit_app.py:472 | `df[names]` yields the named columns' values, one column per name, in name order |
| `RequiredColumns.Gate` | my-streamlit-app/streamlit_app.py:464-472 | refusal exactly when a name is missing, carrying the missing list; otherwise the named columns in list order |
| `RequiredColumns.PrepareBatch` | my-streamlit-app/streamlit_app.py:464-472 | the estimator is reached only when no required column is missing, and then receives the nine columns in canonical order, verbatim |
| `MarkdownImages.FindOnLine` | my-streamlit-app/streamlit_app.py:218 | returns the first occurrence of a literal at or after a position with no newline before it, or none if no occurrence lies on that line |
| `MarkdownImages.NoCloseNoImage` | my-streamlit-app/streamlit_app.py:218 | if no `)` follows the first `](captures/` on its line, the pattern matches with no choice of groups |
| `MarkdownImages.FirstOnLineIsLeast` | my-streamlit-app/streamlit_app.py:218 | the first `](captures/` and the first `)` after it on the line form a match, and it is the least one |
| `MarkdownImages.GroupsSpellMatch` | my-streamlit-app/streamlit_app.py:218-219 | the two captured groups, put back into the pattern, spell exactly the matched text |
| `MarkdownImages.MatchImage` | my-streamlit-app/streamlit_app.py:218 | returns the match the lazy backtracking matcher reports at the start of the text, or none exactly when the pattern cannot match there |
| `MarkdownImages.ProcessMarkdownImages` | my-streamlit-app/streamlit_app.py:214-222 | the result is longer than the input by seven characters per replacement |
| `MarkdownImages.Tokenize` | my-streamlit-app/streamlit_app.py:217-221 | the substitution's left-to-right scan; `TokenizeOriginal`, `TokenizeScanned` and `ScannedIsTokenize` state what it is |
| `MarkdownImages.Rendered` | my-streamlit-app/streamlit_app.py:217-221 | the substitution's output, each link replaced by the lambda's text; `RenderedLength` and `UnchangedIffImageFree` state what it does |
| `MarkdownImages.TokenizeOriginal` | my-streamlit-app/streamlit_app.py:217-221 | the scan's pieces spell the input, so text outside matches is kept in order |
| `MarkdownImages.TokenizeScanned` | my-streamlit-app/streamlit_app.py:217-221 | the scan is left to right and non-overlapping: a character is copied only where no match starts, and a match is taken where it starts |
| `MarkdownImages.ScannedIsTokenize` | my-streamlit-app/streamlit_app.py:217-221 | any segmentation with that property is the scan's, so the scan is uniquely determined |
| `MarkdownImages.RenderedLength` | my-streamlit-app/streamlit_app.py:219 | rendering adds exactly seven characters (`../doc/`) per replaced link |
| `MarkdownImages.UnchangedIffImageFree` | my-streamlit-app/streamlit_app.py:214-222 | the text comes back unchanged if and only if the pattern matches nowhere in it |
| `MarkdownImages.RewriteInsertsDocPrefix` | my-streamlit-app/streamlit_app.py:219 | each replacement is the matched text with `../doc/` inserted after `](`, with alt and path copied verbatim |
| `DayFlags.SelectedLabels` | my-streamlit-app/streamlit_app.py:415-421 | keeps one label per set flag, in flag order, and every set flag's label is present |
| `DayFlags.SelectedSnoc` | my-streamlit-app/streamlit_app.py:415-421 | selecting over one more flag appends that flag's label exactly when it is set, like the conditional `append` |
| `DayFlags.NoneSelectedIff` | my-streamlit-app/streamlit_app.py:423 | no label is selected if and only if no flag is set |
| `DayFlags.DayFlagsSummary` | my-streamlit-app/streamlit_app.py:415-423 | the built line is "-" when no flag is ticked, and otherwise the ticked labels among the translations of "weekend", "holiday" and "vacation", in that order, joined |
| `Sequences.Join` | my-streamlit-app/streamlit_app.py:423 | `" • ".join(...)`: no parts give the empty text, and n parts give their total length plus n - 1 separators; `JoinSnoc` states that the parts keep their order |
| `DayFlags.Summary` | my-streamlit-app/streamlit_app.py:423 | `flags_str`: "-" for no labels, otherwise their join; `SummarySnoc`, `SummaryLength` and `DayFlagsSummary` state its properties |
| `DayFlags.SummarySnoc` | my-streamlit-app/streamlit_app.py:423 | one more selected label extends a non-empty summary by `" • "` and that label |
| `DayFlags.SummaryLength` | my-streamlit-app/streamlit_app.py:423 | a non-empty summary is the labels plus one three-character separator between each neighbouring pair |
| `DayFlags.WeekendAndVacation` | my-streamlit-app/streamlit_app.py:415-423 | weekend and vacation ticked gives `weekend • vacation` |
| `DayFlags.AllThreeFlags` | my-streamlit-app/streamlit_app.py:415-423 | all three ticked gives `weekend • holiday • vacation` |

## Left out

- `BikeCountPredictor.predict` and `predict_batch` (`predictor.py`) are left out. Each is one
  call into an estimator loaded with joblib, whose code is not part of this model, followed
  by floating-point rounding.
- The model-file existence check in `load_model`, and `load_predictor` and `load_readme`,
  are left out. They are filesystem I/O behind Streamlit cache decorators.
- Widgets, tabs, buttons, number inputs, and the page and language state in
  `st.session_state` are left out. They are UI framework state.
- The other summary lines (temperature, precipitation, wind) are left out. They are string
  formatting of floats.
- The text of the missing-columns error is left out. It is the translated prefix followed by
  the missing names joined with `", "`, and it is only shown on screen.
- CSV reading and writing, and appending the `predicted_bikes` column, are left out. They
  are pandas I/O.
- The literal texts of `TRANSLATIONS` are not modelled. Only the lookup rule is, over any
  table; `IsBilingual` states the app's two-language shape.
- `example_usage.py` is not part of this model. It is a demo script with no logic of its own.
- `RequiredColumns.PrepareBatch`: a table is modelled as a map from column name to values. A
  pandas frame with two columns of the same name is not modelled.
- `MarkdownImages.ProcessMarkdownImages`: idempotence is not claimed, because it does not
  hold. A `](captures/` left on the same line after an already rewritten image can match
  on a second pass.
