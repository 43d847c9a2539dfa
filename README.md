# pH and alkalinity of an anaerobic-digestion stream, in Dafny

This project models the acid-base speciation used by an ADM1 (Anaerobic
Digestion Model No. 1) simulation front end. It also models two text helpers
of the same application.

**Speciation.** `update_ph_and_alkalinity` works on a waste stream. It:

- reads the mass concentrations of eight dissolved species;
- converts them to molarities;
- solves the charge balance for the hydrogen-ion concentration on the
  bracket [1e-14, 1], falling back to pH 7 when the bracket is rejected;
- computes the alkalinity in meq/L at that pH, clamped at zero;
- raises the alkalinity to 70% of the inorganic carbon when that carbon
  exceeds 0.01 mol/L;
- writes the pH and the alkalinity back onto the same stream.

A stream that is not liquid only has its existing pH and alkalinity reset to
7 and 0. A liquid stream with none of the species gets pH 7 and alkalinity
2.5.

**Text helpers.**

- `replace_unicode_chars` makes report text printable in a latin-1 font.
  Subscripts, superscripts, the degree sign and Greek letters are spelled out
  in ASCII. It then rewrites a few chemical formulas. Whatever is still
  outside latin-1 becomes `?`.
- `extract_json_from_response` takes a language-model reply and returns the
  JSON text inside it. It strips whitespace, one opening code fence (tagged
  `json` or bare) and one closing fence.

Modules:

| module | file | models |
|---|---|---|
| `Wrappers` | wrappers.dfy | `Option` |
| `Equilibrium` | equilibrium.dfy | the residual `acid_base_rxn`, the alkalinity `calculate_alkalinity` and the constants |
| `PhSolver` | solver.dfy | `solve_ph`, with `brenth` modelled by bisection |
| `Speciation` | speciation.dfy | `get_component_molarities`, `update_ph_and_alkalinity`, and the stream as a class whose two output attributes are updated in place |
| `UnicodeReplace` | unicode_replace.dfy | `replace_unicode_chars`, as a method with the source's replacement loop |
| `JsonExtract` | json_extract.dfy | `extract_json_from_response`, as a function |

**Direction of the residual.** The residual increases strictly with h: every
term either grows with h or is subtracted and shrinks.
`Equilibrium.ChargeBalanceIncreasing` proves this, and root uniqueness and
bracketing rest on it.

**Alkalinity at the root.** The comment at
calculate_ph_and_alkalinity_fixed.py:146 names bicarbonate as the primary
contributor to the alkalinity. At a root of the charge balance, though, the
bicarbonate, weak-acid and water terms cancel against the residual, and the
alkalinity is 1000·(2·(S_cat − S_an) + S_IN), clamped at zero
(`Equilibrium.AlkalinityAtRoot`). Inorganic carbon leaves no trace in it, which
is why the 700·S_IC floor of lines 255-261 is needed to make S_IC count. The
program was not run to observe this.

**Representation choices.**

- All quantities are exact reals.
- A pH value is the datatype `PH = NegLog10(h)`. It names the hydrogen-ion
  concentration whose negative decimal logarithm it is. So `10**(-pH)` is
  `pH.h`, and pH 7.0 is `NegLog10(1e-7)`.
- The waste-stream object is the class `Speciation.Stream`. It
  has the phase, the component identifiers with their concentrations, and
  the two output attributes as `Option`s. `None` means the stream lacks
  that attribute, which is the source's `hasattr` test.

## Model

| member | source | states |
|---|---|---|
| Equilibrium.StandardConstantsAreValid | calculate_ph_and_alkalinity_fixed.py:234-235 | constants derived from the pKa table [14, 9.25, 6.35, 4.76, 4.88, 4.82, 4.86] are all positive, and Kw is exactly 1e-14 |
| Equilibrium.UndissociatedPart | calculate_ph_and_alkalinity_fixed.py:62-70 | the ammonium term S_IN − NH3 of the balance equals S_IN·h/(Ka_nh + h) |
| Equilibrium.Dissociated | calculate_ph_and_alkalinity_fixed.py:62-67 | the dissociated part S·Ka/(Ka + h) of a non-negative total lies between 0 and the total |
| Equilibrium.ChargeBalance | calculate_ph_and_alkalinity_fixed.py:24-70 | the residual `acid_base_rxn` is total positive charge (strong cations, H+, ammonium) minus total negative charge (strong anions, OH−, the five weak-acid anions), each total written independently |
| Equilibrium.ChargeBalanceOfPureWater | calculate_ph_and_alkalinity_fixed.py:61-70 | with no species the residual reduces to h − Kw/h |
| Equilibrium.DissociatedAntitone | calculate_ph_and_alkalinity_fixed.py:62-67 | each dissociated part S·Ka/(Ka + h) of a non-negative total does not grow with h |
| Equilibrium.HydroxideDecreasing | calculate_ph_and_alkalinity_fixed.py:61 | the hydroxide term Kw/h strictly decreases in h |
| Equilibrium.ChargeBalanceIncreasing | calculate_ph_and_alkalinity_fixed.py:61-70 | for non-negative molarities and positive constants the residual is strictly increasing in h |
| Equilibrium.ChargeBalanceRootUnique | calculate_ph_and_alkalinity_fixed.py:61-70 | hence the residual has at most one positive root |
| Equilibrium.MissingSpeciesCountAsZero | calculate_ph_and_alkalinity_fixed.py:43-50 | a species absent from the molarity map gives the same residual and the same alkalinity sum as one present at zero (the `.get(id, 0)` defaults) |
| Equilibrium.CalculateAlkalinity | calculate_ph_and_alkalinity_fixed.py:98-150 | the alkalinity is non-negative, at least 1000 times the sum of basic species, and equal to either 0 or that scaled sum |
| Equilibrium.AlkalinitySum | calculate_ph_and_alkalinity_fixed.py:137-147 | the raw alkalinity sum plus the residual is 2·(S_cat − S_an) + S_IN for every h: the h-dependent terms cancel |
| Equilibrium.AlkalinityAtRoot | calculate_ph_and_alkalinity_fixed.py:247-251 | at a root of the balance the alkalinity is max(0, 1000·(2·(S_cat − S_an) + S_IN)) |
| PhSolver.StraddlesIffProductNonPositive | calculate_ph_and_alkalinity_fixed.py:90-92 | the model's bracket test is exactly the root-finder's f(a)·f(b) ≤ 0 |
| PhSolver.Narrow | calculate_ph_and_alkalinity_fixed.py:90-92 | one step keeps a half of the bracket, exactly half as wide, and keeps a sign change inside it |
| PhSolver.Bisection | calculate_ph_and_alkalinity_fixed.py:90-92 | the final bracket is a non-empty interval nested in the first |
| PhSolver.BisectionKeepsSignChange | calculate_ph_and_alkalinity_fixed.py:90-92 | a sign change over the first bracket is kept over the final one |
| PhSolver.BisectionWidth | calculate_ph_and_alkalinity_fixed.py:90-92 | the final bracket is within xtol, or the bracket was halved at every remaining one of the 100 iterations |
| PhSolver.BisectionConverges | calculate_ph_and_alkalinity_fixed.py:90-92 | from [1e-14, 1] the bisection always ends within xtol = 1e-12 before maxiter = 100 runs out |
| PhSolver.SolvedHydrogen | calculate_ph_and_alkalinity_fixed.py:89-96 | the reported h lies in [1e-14, 1], and is exactly 1e-7 when the residual has no sign change over the bracket |
| PhSolver.BracketHoldsRoot | calculate_ph_and_alkalinity_fixed.py:90-93 | where the residual increases, a bracket across which it changes sign holds every root |
| PhSolver.RootInBracketStraddles | calculate_ph_and_alkalinity_fixed.py:89-96 | a root in [1e-14, 1] means the bracket is accepted (no fallback) |
| PhSolver.SolvedBracket | calculate_ph_and_alkalinity_fixed.py:89-93 | when the bracket is accepted the reported h is the left end of a final bracket within xtol across which the charge balance changes sign |
| PhSolver.SolvedHydrogenNearRoot | calculate_ph_and_alkalinity_fixed.py:89-96 | for non-negative molarities: a root in the bracket rules out the fallback, and whenever there is no fallback the reported h is within 1e-12 of every root |
| PhSolver.ToleranceAdmitsLargeResidual | calculate_ph_and_alkalinity_fixed.py:90-92 | with 0.01 mol/L of strong cations alone and Kw = 1e-14, every root lies in [9e-13, 1e-12], a bracket within xtol across which the residual changes sign, yet the residual at its left end is below −1e-3 |
| PhSolver.FindRoot | calculate_ph_and_alkalinity_fixed.py:90-92 | the root-finder loop returns the end of the bisection from [1e-14, 1] |
| PhSolver.SolvePh | calculate_ph_and_alkalinity_fixed.py:72-96 | the solver's result is the reported h: bisection on an accepted bracket, 1e-7 otherwise |
| Speciation.MolarMassOf | calculate_ph_and_alkalinity_fixed.py:176-206 | molar masses by species: 1 for S_cat and S_an, N_mw, C_mw, 60, 74, 88, 102 |
| Speciation.MolarMass | calculate_ph_and_alkalinity_fixed.py:176-206 | each of the eight species has a positive molar mass |
| Speciation.Divisor | calculate_ph_and_alkalinity_fixed.py:176-206 | each species' divisor is positive, so every conversion is defined |
| Speciation.ConvertIfPresent | calculate_ph_and_alkalinity_fixed.py:176-206 | one `if` block: the species gains a key exactly when its concentration was read, no other key changes, and its molarity times its divisor gives back the concentration |
| Speciation.Stream.constructor | calculate_ph_and_alkalinity_fixed.py:170-173 | a stream whose every component has a concentration is valid, with the given phase, components, concentrations and attributes |
| Speciation.DivisorOf | calculate_ph_and_alkalinity_fixed.py:176-206 | each species is divided by 1000 times its molar mass |
| Speciation.ComponentMolarities | calculate_ph_and_alkalinity_fixed.py:152-208 | the molarity map has keys only among the eight species, never H2O, and has a species exactly when the stream has that component |
| Speciation.ComponentMolaritiesEmpty | calculate_ph_and_alkalinity_fixed.py:167-208 | the map is empty exactly when none of the stream's components is one of the eight species |
| Speciation.ComponentMolaritiesNonNegative | calculate_ph_and_alkalinity_fixed.py:176-206 | non-negative concentrations give non-negative molarities |
| Speciation.ReadConcentrations | calculate_ph_and_alkalinity_fixed.py:170-173 | the loop reads exactly the tracked components (the species and H2O) that the stream has, each with its stream concentration |
| Speciation.ConvertInorganicCorrect | calculate_ph_and_alkalinity_fixed.py:176-190 | after the four inorganic conversions exactly the present ones of S_cat, S_an, S_IN, S_IC are converted, each by its divisor |
| Speciation.ConvertAcidsCorrect | calculate_ph_and_alkalinity_fixed.py:192-206 | the four acid conversions extend that to all eight species |
| Speciation.ConvertedAll | calculate_ph_and_alkalinity_fixed.py:167-208 | a map that has converted every species from the concentrations read is the stream's molarity map |
| Speciation.ConversionCorrect | calculate_ph_and_alkalinity_fixed.py:176-208 | the eight conditional conversions, in source order, produce the molarity map |
| Speciation.GetComponentMolarities | calculate_ph_and_alkalinity_fixed.py:152-208 | reading and converting in place yields the molarity map of the stream |
| Speciation.ReportedAlkalinity | calculate_ph_and_alkalinity_fixed.py:251-261 | the reported alkalinity is non-negative and at least the equilibrium alkalinity; it is at least 700·S_IC when S_IC > 0.01 and exactly the equilibrium alkalinity otherwise; it is one of the two |
| Speciation.UpdatedOutputs | calculate_ph_and_alkalinity_fixed.py:224-267 | non-liquid: the attributes the stream has are reset to pH 7 and alkalinity 0, and missing ones stay missing; liquid: both are set, h in the bracket, alkalinity ≥ 0; no species gives (7, 2.5); S_IC > 0.01 gives alkalinity ≥ 700·S_IC |
| Speciation.UpdatedOutputsSolved | calculate_ph_and_alkalinity_fixed.py:246-265 | a liquid stream with any species gets the pH of the solved h and the alkalinity reported at that pH |
| Speciation.UpdateIdempotent | calculate_ph_and_alkalinity_fixed.py:210-267 | updating a stream again with nothing else changed yields the same two attributes |
| Speciation.UpdatePhAndAlkalinity | calculate_ph_and_alkalinity_fixed.py:210-267 | the same stream is returned; phase, components and concentrations are unchanged; the two attributes become the updated outputs |
| Speciation.UpdateTwice | calculate_ph_and_alkalinity_fixed.py:210-267 | two updates in a row leave the attributes of one update |
| UnicodeReplace.ReplaceUnicodeChars | puran_adm1/components/export/pdf_export_enhanced.py:31-130 | a non-string argument is returned as it is; a string becomes its per-character reference sanitisation |
| UnicodeReplace.TableAsciiOverHigh | puran_adm1/components/export/pdf_export_enhanced.py:49-109 | every replaced character is outside ASCII and every replacement is ASCII |
| UnicodeReplace.SubscriptReplaced | puran_adm1/components/export/pdf_export_enhanced.py:50-68 | every subscript character is replaced by its own table entry |
| UnicodeReplace.SuperscriptReplaced | puran_adm1/components/export/pdf_export_enhanced.py:69-82 | every superscript character is replaced by its own table entry |
| UnicodeReplace.GreekReplaced | puran_adm1/components/export/pdf_export_enhanced.py:84-108 | every Greek letter is replaced by its spelled-out name |
| UnicodeReplace.ExampleSubscript | puran_adm1/components/export/pdf_export_enhanced.py:52 | subscript two becomes "2" |
| UnicodeReplace.ExampleSuperscript | puran_adm1/components/export/pdf_export_enhanced.py:70 | superscript three becomes "3" |
| UnicodeReplace.ExampleDegree | puran_adm1/components/export/pdf_export_enhanced.py:83 | the degree sign becomes "deg" |
| UnicodeReplace.ExampleGreek | puran_adm1/components/export/pdf_export_enhanced.py:95 | mu becomes "mu" |
| UnicodeReplace.LookupTableNone | puran_adm1/components/export/pdf_export_enhanced.py:49-109 | a character outside the code points of every group has no table entry |
| UnicodeReplace.ExampleUntabled | puran_adm1/components/export/pdf_export_enhanced.py:126-130 | é, which is latin-1 and not in the table, is kept; ≤ becomes "?" |
| UnicodeReplace.Replace | puran_adm1/components/export/pdf_export_enhanced.py:113 | `str.replace`: a replacement no longer than the pattern never lengthens the text, and one no shorter never shortens it |
| UnicodeReplace.ReplaceCharConcat | puran_adm1/components/export/pdf_export_enhanced.py:113 | replacing a single character distributes over concatenation |
| UnicodeReplace.ReplaceCharRemoves | puran_adm1/components/export/pdf_export_enhanced.py:113 | replacing a character by text without it leaves none of it |
| UnicodeReplace.ReplaceExtendsTable | puran_adm1/components/export/pdf_export_enhanced.py:112-113 | one more `str.replace` of a non-ASCII character by ASCII text extends the per-character mapping by that entry |
| UnicodeReplace.ReplaceExtendsPrefix | puran_adm1/components/export/pdf_export_enhanced.py:112-113 | the loop step: the replacement for entry i after entries 0..i−1 is the mapping by entries 0..i |
| UnicodeReplace.MappedLacksTableChar | puran_adm1/components/export/pdf_export_enhanced.py:112-113 | after the loop no character of the table is left |
| UnicodeReplace.SubscriptInTable | puran_adm1/components/export/pdf_export_enhanced.py:50-68 | every subscript is a key of the table |
| UnicodeReplace.MappedLacksFormulaSubscripts | puran_adm1/components/export/pdf_export_enhanced.py:112-123 | after the loop subscripts 2, 3 and 4, which every formula pattern contains, are gone |
| UnicodeReplace.ReplaceAbsent | puran_adm1/components/export/pdf_export_enhanced.py:116-123 | a pattern with a character the text lacks changes nothing |
| UnicodeReplace.FormulasAbsent | puran_adm1/components/export/pdf_export_enhanced.py:116-123 | so each of the eight formula rewrites leaves the text unchanged |
| UnicodeReplace.Latin1Replace | puran_adm1/components/export/pdf_export_enhanced.py:130 | encoding with errors='replace' keeps the length: each unencodable character becomes exactly one '?' |
| UnicodeReplace.Latin1OfEncodable | puran_adm1/components/export/pdf_export_enhanced.py:126-127 | text that latin-1 can encode round-trips unchanged |
| UnicodeReplace.Latin1OfMapped | puran_adm1/components/export/pdf_export_enhanced.py:112-130 | the loop's result, encoded with replacement, is the per-character reference sanitisation |
| UnicodeReplace.SanitizedIsLatin1 | puran_adm1/components/export/pdf_export_enhanced.py:126-130 | every character of the result has a code point ≤ 255 |
| UnicodeReplace.SanitizedHasNoTableChar | puran_adm1/components/export/pdf_export_enhanced.py:112-113 | no character the table replaces is in the result |
| UnicodeReplace.SanitizedFixesPlainText | puran_adm1/components/export/pdf_export_enhanced.py:112-127 | latin-1 text without table characters is returned unchanged |
| UnicodeReplace.SanitizedKeepsOrder | puran_adm1/components/export/pdf_export_enhanced.py:112-130 | the non-ASCII latin-1 characters outside the table come through in their original order |
| UnicodeReplace.SanitizedConcat | puran_adm1/components/export/pdf_export_enhanced.py:112-130 | the sanitisation of a concatenation is the concatenation of the sanitised parts: each character is treated on its own |
| UnicodeReplace.SanitizedIdempotent | puran_adm1/components/export/pdf_export_enhanced.py:31-130 | the sanitisation applied to its own output changes nothing |
| JsonExtract.LStrip | puran_adm1/api/ai_assistant.py:184 | the result is a suffix of the input, what it drops is all whitespace, and it does not start with whitespace |
| JsonExtract.RStrip | puran_adm1/api/ai_assistant.py:184 | the result is a prefix of the input, what it drops is all whitespace, and it does not end with whitespace |
| JsonExtract.Strip | puran_adm1/api/ai_assistant.py:184 | `str.strip` leaves no whitespace at either end and is never longer |
| JsonExtract.StripRemovesOuterSpace | puran_adm1/api/ai_assistant.py:184 | strip returns a slice of its input and removes only whitespace at the two ends |
| JsonExtract.StripPadded | puran_adm1/api/ai_assistant.py:184 | whitespace around trimmed text is exactly what strip removes |
| JsonExtract.StripTrimmed | puran_adm1/api/ai_assistant.py:196 | trimmed text is left as it is |
| JsonExtract.StripIdempotent | puran_adm1/api/ai_assistant.py:196 | stripping twice is stripping once |
| JsonExtract.DropOpeningFence | puran_adm1/api/ai_assistant.py:186-190 | the input is what was cut plus the result, and what was cut is nothing, "```" or "```json": at most one fence and nothing but a fence; a "```json" tag goes whole; something is cut exactly when the text opens with a fence |
| JsonExtract.DropClosingFence | puran_adm1/api/ai_assistant.py:192-194 | the input is the result plus what was cut, and what was cut is nothing or "```"; something is cut exactly when the text ends with a fence |
| JsonExtract.ExtractJson | puran_adm1/api/ai_assistant.py:169-196 | the result has no outer whitespace and is never longer than the response |
| JsonExtract.ExtractJsonIsSlice | puran_adm1/api/ai_assistant.py:184-196 | the result is a contiguous slice of the response |
| JsonExtract.ExtractJsonRoundTrip | puran_adm1/api/ai_assistant.py:184-196 | any trimmed s put in a fenced block tagged json on its own lines is extracted as s, even when s is itself fenced |
| JsonExtract.ExtractJsonFencedJson | puran_adm1/api/ai_assistant.py:184-196 | a json-tagged block with any whitespace around and inside the fences yields its content |
| JsonExtract.ExtractJsonFencedBare | puran_adm1/api/ai_assistant.py:184-196 | a bare block whose opening fence is followed by whitespace yields its content |
| JsonExtract.ExtractJsonExample | puran_adm1/api/ai_assistant.py:184-196 | a typical fenced reply yields the bare JSON object |
| JsonExtract.ExtractJsonDropsTag | puran_adm1/api/ai_assistant.py:187-190 | when the stripped reply opens with "```json", the result lies wholly after the tag |
| JsonExtract.ExtractJsonUnfenced | puran_adm1/api/ai_assistant.py:184-196 | a reply that neither starts nor ends with a fence after stripping is just stripped |
| JsonExtract.ExtractJsonStable | puran_adm1/api/ai_assistant.py:184-196 | a result without a fence at either end is extracted again as itself |

## Left out

- Brent's method (`scipy.optimize.brenth`) is a library routine. It is modelled by bisection over the same bracket, tolerance and iteration cap. The value reported is proved within 1e-12 of the root, but it is not brenth's own iterate.
- PhSolver.SolvedHydrogenNearRoot: bounds the distance of the reported h from the root, not the residual there. The absolute xtol = 1e-12 at calculate_ph_and_alkalinity_fixed.py:92 does not keep the residual small for roots near 1e-12 (pH about 12): `PhSolver.ToleranceAdmitsLargeResidual` exhibits a bracket within xtol whose left end has a residual over 1e-3 in magnitude. brenth takes the same absolute xtol, so the program plausibly behaves the same way; this was not observed by running it.
- The root-finder's non-convergence error cannot happen in the model: bisection is proved to converge within the cap. Only the rejected-bracket fallback is modelled.
- Floating point is not modelled. All arithmetic is on exact reals, including the tolerance comparisons and the constants 1e-14, 1e-12 and 1e-7.
- `-log10(h)` and `10**(-pH)` are transcendental. A pH is carried as the hydrogen-ion concentration it stands for (`Equilibrium.PH`), so the round-trip through the logarithm is exact.
- The acid constants 10^(-pKa) are irrational for the fractional pKa values. They are a parameter constrained by `Equilibrium.StandardConstants`: each lies strictly between the neighbouring powers of ten, or is exact for a whole pKa.
- The molar masses of carbon and nitrogen come from an element table in another library. They are the parameter `Speciation.ElementMasses`, with only their positivity assumed.
- The waste-stream object of the process-simulation library is reduced to `Speciation.Stream`. The cast `float(stream.iconc[id])` is left out, since concentrations are reals already.
- `main()` is a demonstration harness that builds a stream through the simulation library. It is not modelled.
- Dictionary iteration follows insertion order, so the replacement table is modelled as a sequence in source order.
- The order-independence of the replacement table is not proved for a reordered table. What is proved is that the result is a function of each character alone.
- The try/except around the latin-1 encoding is modelled as a test of whether every character is encodable.
- The formula rewrites are performed as in the source, but they are proved never to change the text.
- Speciation.ComponentMolarities: its contract states which species appear. The value of each species, its concentration divided by its divisor, is the function's definition. The value statement "the molarity times the divisor gives back the concentration" is left out.
