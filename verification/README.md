# Crime-proximity scoring and classification, in Dafny

This project models the pure logic at the heart of a crime-proximity
pipeline. The pipeline turns geolocated incidents into a weighted graph,
splits the graph into communities, and ranks those communities into tiers.
The model covers:

- **Categories** (`categories.dfy`): the static table of crime categories,
  first-match lookup of a crime code, and the categorical crime-similarity
  score, including its substring test for the "agressao" family.
- **TimeOfDay** (`time_of_day.dfy`): parsing of a military time code
  (`str`, `zfill(4)`, `isdigit`, then hours and minutes) and the difference
  between two times of day through midnight. Times are whole minutes.
- **Victims** (`victims.dfy`): building a victim profile from a raw row
  (age 0 and missing cells become absent) and the weighted victim-similarity
  score. Python's `str.strip` is modelled with the full `isspace` set.
- **GraphBuilder** (`graph_builder.dfy`): the seven-term composite edge
  weight, and the enumeration that emits one edge `(i, j)` per neighbour
  `j > i`. The weight list runs parallel to the edge list, and the graph is
  created with one vertex per event.
- **Ranking** (`ranking.dfy`): min-max normalisation of the community table,
  the selection score, and the three threshold tiers with their sorting. It
  also covers the first-match tier label given to every vertex.
- **Common** (`common.dfy`): `Option`, `Abs` and the unit interval `InUnit`.

The model follows the code as written:

- The aggression-family crime weight is 0.75.
- The age term is not clamped.
- Sex and descent are compared after stripping whitespace only, not case.
- The selection score weighs size 0, density 0.5 and spatial density 0.5.
- Vertex labels are assigned first-match in the order focal point, priority
  area, attention area.

The four places where the code evidently misses its own intent are listed
under "## Findings". Each has an as-written member and a corrected member.
The graph builder and the classifier follow the code as written: edges are
weighted with the as-written crime and victim comparators, so a weight can
fall below 0 when two victims' ages are more than a century apart, and the
focal points stay in table order. The corrected edge weight
(`EdgeWeightCorrected`) and the sorted focal tier (`FocalPoints`) are
defined alongside and related to the as-written ones by lemmas.

## Model

| member | source | states |
|---|---|---|
| Categories.Lookup | funcoes_auxiliares.py:17-21 | A code in no list yields "Indefinido"; otherwise the result is the name of the first entry, in table order, whose list holds the code |
| Categories.LookupDisjoint | funcoes_auxiliares.py:17-21 | When no code is in two lists, the lookup returns the name of the one entry that holds the code, whatever entries come before it |
| Categories.LookupOrderIndependent | funcoes_auxiliares.py:4-21 | For disjoint tables, reordering the entries never changes the category of any code |
| Categories.CrimeTableDisjoint | funcoes_auxiliares.py:4-15 | The static table of eight categories has no code in two lists, so the dictionary's insertion order never decides a lookup |
| Categories.CrimeCategory | funcoes_auxiliares.py:4-21 | The category of a code under the static table is the name of the list holding it, and "Indefinido" when no list holds it |
| Categories.CrimeCategoryExamples | funcoes_auxiliares.py:5-21 | Code 110 is "homicidio", code 446 (last in its list) is "roubo", and code 999 is "Indefinido" |
| Categories.ContainsMeansOccurs | funcoes_auxiliares.py:25 | The recursive substring test used for `'agressao' in cat` holds exactly when the word occurs at some position of the category name |
| Categories.CompareCategories | funcoes_auxiliares.py:23-32 | Equal categories score 1; two different categories that both contain "agressao" score 0.75; every other pair scores 0, with no special case left in effect |
| Categories.CompareCategoriesSymmetric | funcoes_auxiliares.py:23-32 | The crime score does not depend on which event comes first |
| Categories.CompareCategoriesRange | funcoes_auxiliares.py:23-32 | The crime score as written is always one of 0, 0.75 or 1 |
| Categories.HomicideSevereAsWritten | funcoes_auxiliares.py:29-30 | As written, "agressao grave" against "homicidio" scores 0 in both orders |
| Categories.CompareCategoriesIntended | funcoes_auxiliares.py:23-32 | The homicide / severe-aggression pair scores 0.25; every other pair scores as the code does; all results lie in {0, 0.25, 0.75, 1} |
| Categories.CompareCategoriesIntendedSymmetric | funcoes_auxiliares.py:23-32 | The corrected crime score does not depend on argument order |
| TimeOfDay.ZFill | funcoes_auxiliares.py:38 | Text of length 4 or more is unchanged; shorter text gets zeros up to length 4, placed after a leading `+` or `-` and in front otherwise; padding changes neither whether the text is all digits nor the number it denotes |
| TimeOfDay.NatToString | funcoes_auxiliares.py:38 | `str` of a natural number is a non-empty digit string that denotes that number; 0 gives "0" and every other number starts with a non-zero digit |
| TimeOfDay.MilitaryToMinutes | funcoes_auxiliares.py:35-45 | A time is parsed exactly when the text is at most four ASCII digits; the result is 60 times the first two digits plus the last two, with no range check, so it can reach 99 h 99 min |
| TimeOfDay.MilitaryFromCode | funcoes_auxiliares.py:35-45 | An integer code yields a time exactly when it lies in 0..9999, so negative codes and codes of five or more digits fail; the time is 60 * (code / 100) + code % 100 minutes |
| TimeOfDay.MilitaryToMinutesChecked | funcoes_auxiliares.py:40-45 | With the range check added, a time is parsed exactly when the text is digits, the hours are below 24 and the minutes below 60; every result lies within one day and agrees with the unchecked parser |
| TimeOfDay.TimeDifference | funcoes_auxiliares.py:51-56 | The difference is either the direct gap or one day minus it, and is never larger than either |
| TimeOfDay.TimeDifferenceSymmetric | funcoes_auxiliares.py:51-56 | The time difference does not depend on argument order |
| TimeOfDay.TimeDifferenceSelf | funcoes_auxiliares.py:51-56 | A time is 0 minutes from itself |
| TimeOfDay.TimeDifferenceIsClockDistance | funcoes_auxiliares.py:49-56 | For two times within one day, the difference equals the distance on a 24-hour clock face computed by modular arithmetic, and lies between 0 and 12 hours |
| TimeOfDay.NineHoursThroughMidnight | funcoes_auxiliares.py:49-56 | Codes 1900 and 400 parse to 19:00 and 04:00, which are 9 hours apart through midnight, not 15 |
| TimeOfDay.UncheckedHourGivesNegativeDifference | funcoes_auxiliares.py:40-56 | "2500" parses to 1500 minutes; its difference from midnight is -60 minutes; the checked parser refuses it |
| TimeOfDay.CheckedTimesDifferenceBounded | funcoes_auxiliares.py:40-56 | The difference between two range-checked times is between 0 and 12 hours |
| Victims.GenerateProfile | funcoes_auxiliares.py:58-70 | The age is absent exactly when it is 0 and is otherwise kept; sex and descent are absent exactly when their cells are missing and otherwise keep the cell text |
| Victims.Strip | funcoes_auxiliares.py:85 | The stripped text is a contiguous slice of the input, with only whitespace before and after it, and it neither starts nor ends with whitespace |
| Victims.StripIdempotent | funcoes_auxiliares.py:85 | Stripping twice is stripping once |
| Victims.StripIgnoresPadding | funcoes_auxiliares.py:85-91 | Adding whitespace on either side never changes the stripped text, so padded and unpadded values compare equal |
| Victims.AgeScore | funcoes_auxiliares.py:78-81 | An absent age scores 0.5; two known ages score at most 1, exactly 1 when equal, and are non-negative exactly when at most 100 years apart |
| Victims.AgeScoreAntitone | funcoes_auxiliares.py:81 | For known ages, one pair scores at least as high as another exactly when its gap is no larger |
| Victims.TextScore | funcoes_auxiliares.py:83-91 | An absent value scores 0.5; two present values score 1 when their stripped texts are equal and 0 when they differ |
| Victims.CompareVictims | funcoes_auxiliares.py:73-95 | The 0.40/0.30/0.30 blend is at most 1; it is exactly 1 when age, sex and descent all match; it is non-negative whenever the age gap is within a century |
| Victims.CompareVictimsSymmetric | funcoes_auxiliares.py:73-95 | The victim score does not depend on argument order |
| Victims.CompareVictimsUnknown | funcoes_auxiliares.py:73-95 | Two profiles with nothing known score 0.5 |
| Victims.CompareVictimsNegative | funcoes_auxiliares.py:81-93 | Ages 1 and 200 with sex and descent absent give a negative victim score |
| Victims.AgeScoreClamped | funcoes_auxiliares.py:78-81 | The age term with a clamp lies in [0, 1], agrees with the unclamped term up to a 100-year gap, and is 0 beyond it |
| Victims.CompareVictimsClamped | funcoes_auxiliares.py:73-95 | The corrected victim score lies in [0, 1], agrees with the code whenever the age gap is within a century, and is 1 exactly on a full match |
| Victims.CompareVictimsClampedSymmetric | funcoes_auxiliares.py:73-95 | The corrected victim score does not depend on argument order |
| GraphBuilder.CoefficientsSumToOne | main.py:105 | The seven weights 0.25, 0.1, 0.25, 0.1, 0.1, 0.15 and 0.05 sum to 1 |
| GraphBuilder.Composite | main.py:105 | When every score lies in [0, 1], so does the edge weight; all scores 1 give weight 1 and all scores 0 give weight 0 |
| GraphBuilder.CompositeMonotone | main.py:105 | Raising any single score never lowers the edge weight |
| GraphBuilder.PairComponents | main.py:86-105 | The crime and victim scores of a pair come from the as-written comparators; if all seven scores lie in [0, 1] so do the five external ones, and the converse holds when the victims' ages are at most a century apart |
| GraphBuilder.EdgeWeight | main.py:84-105 | The weight of an edge is at most 1 whenever that pair's external scores lie in [0, 1], and lies in [0, 1] when the victims' ages are also at most a century apart |
| GraphBuilder.CoincidentEventsWeight | main.py:86-105 | Two events with the same category, fully matching victims, distance score 1 and time score 1 get an edge weight of at least 0.7 |
| GraphBuilder.NegativeEdgeWeight | main.py:95-105 | Events "roubo" and "furto" with victim ages 1 and 200, unknown sex and descent, and all external scores 0 get a negative edge weight |
| GraphBuilder.PairComponentsCorrected | main.py:86-105 | With the corrected comparators, the seven scores of a pair all lie in [0, 1] exactly when the five external ones do |
| GraphBuilder.EdgeWeightCorrected | main.py:84-105 | With the corrected comparators, the weight of an edge lies in [0, 1] whenever that pair's external scores do |
| GraphBuilder.CorrectedDominates | main.py:95-105 | Every corrected score is at least the as-written one, so the corrected weight is never lower |
| GraphBuilder.CorrectedAgreesAsWritten | main.py:95-105 | Away from the homicide / severe-aggression pair, and with ages at most a century apart, the corrected and as-written scores are identical |
| GraphBuilder.HomicideSevereWeightGap | main.py:97-105 | For homicide against severe aggression, with ages at most a century apart, the corrected weight exceeds the as-written one by exactly 0.25 * 0.25 |
| GraphBuilder.RowPairsMembers | main.py:72-74 | The edges of event i are exactly the pairs (i, j) with j a neighbour of i and j > i |
| GraphBuilder.PairsBeforeMembers | main.py:66-74 | The edges of events 0..i-1 are exactly the ordered pairs (a, b) with a < i, a < b and b a neighbour of a |
| GraphBuilder.CandidatesMembers | main.py:66-74 | The candidate edges are exactly the ordered neighbour pairs with the smaller index first |
| GraphBuilder.PairsBeforeRepeatFree | main.py:66-74 | When no neighbour list repeats an index, no edge is emitted twice |
| GraphBuilder.UnorderedPairOnce | main.py:72-74 | For a symmetric neighbour relation, each unordered pair of distinct neighbours becomes an edge oriented from the smaller index and never the reverse one; with repeat-free neighbour lists that edge appears exactly once |
| GraphBuilder.RepeatedNeighbourGivesEdgeTwice | main.py:66-74 | A neighbour listed twice, as in the lists [[1, 1], [0]], gives the edge (0, 1) twice |
| GraphBuilder.IsolatedEventHasNoEdge | main.py:66-74 | An event that only neighbours itself and that no other event lists touches no edge |
| GraphBuilder.AddRow | main.py:73-109 | Processing one event appends exactly its row of edges to the edge list and keeps every weight that of its edge |
| GraphBuilder.BuildGraph | main.py:44-113 | The graph has one vertex per event, isolated or not; its edges are exactly the candidate pairs in enumeration order; each edge joins distinct events, smaller index first, and carries its composite weight; no edge repeats when no neighbour list does; every weight is at most 1 when the external scores lie in [0, 1], and lies in [0, 1] when in addition every two victims' ages are at most a century apart |
| Ranking.Scale | main.py:134-135 | A value scaled by its column's range lies in [0, 1]; the minimum maps to 0; the maximum of a non-constant column maps to 1; a constant column maps to 0; the value is recovered by unscaling |
| Ranking.NormalizeColumn | main.py:133-135 | Each normalised column has the input's length and values in [0, 1], with the minimum at 0, the maximum at 1 unless the column is constant, and every value 0 when it is constant |
| Ranking.NormalizeInverse | main.py:133-135 | Every column value is recovered from its normalised value and the column's minimum and maximum |
| Ranking.NormalizePreservesOrder | main.py:133-135 | In a non-constant column, one value is at most another exactly when its normalised value is |
| Ranking.NormalizeMonotone | main.py:133-135 | Normalisation never reverses the order of two values, even in a constant column |
| Ranking.SelectionScore | main.py:137-142 | The score is the mean of the normalised density and spatial density, whatever the size term, so it lies in [0, 1] when they do |
| Ranking.SelectionScoreIgnoresSize | main.py:137-142 | With size weight 0, two communities with equal normalised densities score the same whatever their sizes |
| Ranking.NormalizeTable | main.py:130-142 | An empty table has no result; otherwise every row keeps its community, gets the three normalised columns at its position, and has as score the selection score of its three normalised values, which lies in [0, 1] |
| Ranking.TopCommunityScoresOne | main.py:133-142 | A community that is densest and spatially densest, in columns that are not constant, scores exactly 1 |
| Ranking.TiersDisjoint | main.py:144-150 | No community meets two of the focal, priority and attention rules |
| Ranking.Filter | main.py:144-150 | The selection keeps exactly the rows that meet the tier's rule, each as often as it occurs in the table |
| Ranking.FilterInOrder | main.py:144-150 | The selection is the subsequence of the table at the increasing positions whose rows meet the tier's rule, and at no other positions |
| Ranking.SortByScoreDesc | main.py:148-151 | The sorted tier is a permutation of its input in non-increasing score order |
| Ranking.FocalPointsAsWritten | main.py:144-145 | As written, focal points are the subsequence of the table made of exactly the rows that meet the focal rule, left in table order |
| Ranking.FocalPointsAsWrittenUnsorted | main.py:144-147 | Two focal communities with scores 0.2 and then 0.3 stay in ascending order |
| Ranking.FocalPoints | main.py:144-145 | Focal points sorted by descending score are a permutation of the as-written selection and hold exactly the rows that meet the focal rule |
| Ranking.PriorityAreas | main.py:147-148 | Priority areas are in descending score order and hold each row that meets the priority rule as often as the table does |
| Ranking.AttentionAreas | main.py:150-151 | Attention areas are in descending score order and hold each row that meets the attention rule as often as the table does |
| Ranking.Classify | main.py:130-151 | An empty table has no tiers; otherwise each tier holds exactly the scored rows that meet its rule; the focal points are those rows in table order, and the priority and attention areas are sorted by descending score and hold each qualifying row as often as the table does |
| Ranking.LabelVertices | main.py:183-198 | Each vertex is a focal point exactly when its community is focal; it is a priority area exactly when the community is priority but not focal; it is an attention area exactly when the community is in that tier only; and it is ordinary otherwise |
| Ranking.LabelIsOwnTier | main.py:178-198 | With unique community ids, a community's label is the tier its own row meets, and ordinary when it meets none |

## Left out

- Reading and sampling the incident CSV, the progress printing, and the CSV exports and report call (main.py:1-29 and 153-165) are I/O and are not modelled.
- The BallTree radius query (main.py:33-40, 72) is not modelled: the neighbour lists are an input, each index naming an event.
- The geodesic distance score (main.py:86-87) is an external per-pair value, because it needs geodesy on an ellipsoid. The weight bounds assume it lies in [0, 1], which the source does not guarantee: the neighbour query filters by haversine distance on a 6371 km sphere (main.py:37-40), while the score measures on the WGS-84 ellipsoid, so a pair just inside the radius by one measure can be just outside it by the other and get a slightly negative distance score.
- The exponential time score `exp(-ALPHA_TEMPO * hours)` (main.py:93) is an external per-pair value, because it is floating-point `exp`. Only the time difference that feeds it is modelled. The weight bounds assume the time score lies in [0, 1], which the source does not guarantee: an unchecked time such as "2500" gives a negative difference (see "## Findings"), and then the score exceeds 1.
- A missing time (`None` from the parser) reaching the time difference at main.py:89 raises a `TypeError` in the source. The model's parser returns `None`, but the failure is not carried into the graph, because the time score is external.
- The behaviour-code, weapon and secondary-crime comparators and the crime, weapon and secondary-code categorisers used by main.py:50-53 and 99-103 are not part of this model. Their scores are external per-pair values, and the crime category of each event is an input.
- The Louvain community detection (main.py:117) is an external optimiser: the community membership of each vertex is an input.
- The per-community feature extraction (main.py:124-128) is not part of this model: the community rows (id, size, density, spatial density) are an input.
- The synthetic community vertices added at main.py:167-176 are not modelled. The labelling loop at main.py:185 also visits them, and their label is ordinary; LabelVertices labels the event vertices only.
- Floating-point arithmetic is modelled with exact reals, for the scores, the normalisation and the tier thresholds (for example `Q_OCC * 0.009`).
- The constant `Q_OCC` is the parameter `total` of the tier rules.
- TimeOfDay.MilitaryToMinutes: accepts ASCII digits only, whereas Python's `isdigit` also accepts other Unicode digits.
- An empty community table has no columns, so `df_comunidades[colunas]` raises a `KeyError` in the source (main.py:135); NormalizeTable and Classify return `None` for it.
- Victims.GenerateProfile: an age cell that is NaN is not modelled; ages are integers, and sex and descent cells are either missing or text.
- Ranking.SortByScoreDesc: promises a permutation in descending score order but not the order of equal scores. Pandas' default quicksort is not stable, so the source promises no tie order either.
- The variant scripts (analise_dados.py, teste-const-df.py, teste-construcao-grafo.py, teste-quant-alta.py, testes-louvain.py) are not part of this model.

## Findings

| source | as written | input that shows it | evidently intended | confidence | as-written member | corrected member |
|---|---|---|---|---|---|---|
| funcoes_auxiliares.py:29-30 | `peso == 0.25` compares instead of assigning, so the special case has no effect | `comparar_categorias('agressao grave', 'homicidio')` returns 0 | the homicide / severe-aggression pair scores 0.25 | not executed; high | Categories.HomicideSevereAsWritten | Categories.CompareCategoriesIntended |
| funcoes_auxiliares.py:81 | the age term `1 - gap/100` is not clamped | ages 1 and 200 with sex and descent absent give 0.4 * (-0.99) + 0.15 + 0.15 = -0.096 | the age term is `1 - min(1, gap/100)`, so every victim score lies in [0, 1] | not executed; high | Victims.CompareVictimsNegative | Victims.CompareVictimsClamped |
| funcoes_auxiliares.py:40-45 | the parser checks only for four digits, never that hours < 24 and minutes < 60 | "2500" parses to 25 h; its difference from "0000" is min(25 h, 24 h - 25 h) = -1 h, so the time score exceeds 1 | out-of-range times are refused like other invalid ones, and every difference lies in [0, 12 h] | not executed; medium | TimeOfDay.UncheckedHourGivesNegativeDifference | TimeOfDay.MilitaryToMinutesChecked |
| main.py:144-147 | the sorted focal points are assigned to `areas_prioritarias` and overwritten at the next line, so focal points stay in table order | two focal communities (sizes 50 and 60 of 15000 events) with scores 0.2 then 0.3 stay ascending | focal points are sorted by descending score, as the other two tiers are | not executed; medium | Ranking.FocalPointsAsWrittenUnsorted | Ranking.FocalPoints |
