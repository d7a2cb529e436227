# NDVI time series from Sentinel-2: the table-reshaping core

The Earth Engine script `jjj.js` samples crop points across Uttar Pradesh. For
each point it extracts the NDVI (normalised difference vegetation index) of
every Sentinel-2 L2A frame from 1 January 2019 up to, but not including,
31 December 2019 that covers a point. Cloud, snow, shadow and cirrus pixels
are masked out, so a point under cloud gets the sentinel -9999 for that frame.
The script exports one CSV row per point, with one column per acquisition date. This project models the logic of that
script that can be stated without the Earth Engine service:

- **Masking** (`masking.dfy`): the per-pixel test of `maskCloudAndShadows`. A
  pixel is kept only when its cloud probability is below 5, its snow
  probability is below 5, and its scene classification is neither cirrus (10)
  nor cloud shadow (3).
- **Triplets** (`triplets.dfy`): one `(id, imageID, ndvi)` record per image and
  point. A missing reading is replaced by the sentinel -9999 through a
  first-non-null reduction. The per-image lists are then flattened into one
  table.
- **Pivot** (`pivot.dfy`): `format`, the long-to-wide pivot. It produces one row
  per distinct point id, keyed by `id`, with one column per image id. The
  script says nothing about two triplets that share an (id, imageID) pair. The
  model takes the matches of a point in table order and lets the later pair win
  when they are turned into a dictionary.
- **Merge** (`merge.dfy`): `merge`, the collapse of the granules of one day. A
  column key is cut to its first eight characters, the date. Each distinct date
  becomes one column, holding the largest value among the columns whose key
  *contains* that date (`stringContains`).
- **Pipeline** (`pipeline.dfy`): the chain `merge(format(triplets), 'id')`. It
  comes with end-to-end properties. When there is at least one image and none is
  named "id", each point has exactly one output row. When, in addition, point ids and image ids are
  distinct, the row of a point has the date column of every image, and that
  cell is at least the point's reading on the image.
- **Worked rows** (`examples.dfy`): the situation the source comments describe,
  with two granules of one day. It also shows the consequence of choosing the
  date group by substring.

A feature is modelled by its property dictionary, a `map<string, Value>`. The
point id is `Text` and every other property a `Number`. Earth Engine is
evaluated lazily on a server. For the model, every collection is a finite
sequence and the service's reduction of an image over a point is a function
parameter `reduce`.

## Model

| member | source | states |
|---|---|---|
| Masking.MaskBand | jjj.js:34-42 | the mask band is 0 or 1, and it is 1 exactly when cloud probability < 5, snow probability < 5, SCL is not 10 and SCL is not 3 |
| Masking.UpdateMask | jjj.js:43 | a pixel is kept, unchanged, exactly when its mask is nonzero |
| Masking.MaskCloudAndShadows | jjj.js:33-44 | a pixel survives exactly when it is clear, and a surviving pixel is unchanged |
| Masking.AnyFailingConditionMasks | jjj.js:36-42 | failing any one of the four conditions masks the pixel, whatever the other bands hold |
| Masking.CloudyPixelIsMasked | jjj.js:36 | a cloud probability of 10 masks the pixel for every snow and SCL value |
| Triplets.FirstNonNull | jjj.js:134-135 | the result is null exactly when every entry is null; otherwise it is the first non-null entry |
| Triplets.FillNoData | jjj.js:132-135 | a present reading is kept and a missing one becomes -9999 |
| Triplets.ImageTriplets | jjj.js:126-137 | one triplet per point, in point order, carrying the point id, the image id and the filled reading |
| Triplets.Flatten | jjj.js:138 | the flattened table is as long as all the lists together |
| Triplets.FlattenMembers | jjj.js:138 | an element is in the flattened table exactly when it is in one of the lists |
| Triplets.FlattenUniform | jjj.js:138 | with lists of equal length m, element j of list i sits at index i*m+j |
| Triplets.UniformLength | jjj.js:138 | lists of equal length m flatten to a table of |lists|*m elements |
| Triplets.TripletTable | jjj.js:125-138 | the table built from one triplet list per image, flattened, holds |images|*|points| triplets; TripletAt and TripletOrigin give its contents |
| Triplets.TripletAt | jjj.js:125-138 | index i*|points|+j holds the triplet of point j on image i, with the filled reading |
| Triplets.TripletOrigin | jjj.js:125-138 | every triplet of the table is the triplet of some image and some point: none is invented |
| Pivot.Distinct | jjj.js:141 | no id occurs twice, the same ids occur as in the input, and there are no more of them |
| Pivot.Matches | jjj.js:142-149 | the joined matches of a point are exactly the triplets with that id |
| Pivot.Dict | jjj.js:157 | the dictionary is empty exactly when the pair list is, and has no more keys than pairs |
| Pivot.DictSnoc | jjj.js:157 | appending a pair to the list sets that one key in the dictionary |
| Pivot.DictKeys | jjj.js:157 | the dictionary's keys are the keys of the pairs |
| Pivot.DictLastWins | jjj.js:157 | a key's value is the value of the last pair with that key |
| Pivot.MatchDict | jjj.js:151-157 | the dictionary of one point has no more columns than the table has triplets |
| Pivot.MatchDictSnoc | jjj.js:151-157 | adding a triplet of the point sets its column; a triplet of another point changes nothing |
| Pivot.MatchDictKeys | jjj.js:151-157 | the columns built for a point are the image ids of its triplets |
| Pivot.MatchDictLastWins | jjj.js:151-157 | each column holds the reading of the last triplet of that (point, image) pair |
| Pivot.PivotRow | jjj.js:151-157 | the row's keys are `id` and the point's image ids; `id` holds the point id unless an image is named "id"; each image column holds the last reading for that pair; all image cells are numbers |
| Pivot.Format | jjj.js:140-159 | one row per distinct id of the table's id column, built from the (imageID, ndvi) pairs of its matches; every row's non-id cells are numbers |
| Pivot.FormatOneRowPerId | jjj.js:140-159 | when no image is named "id", an id has a row exactly when it occurs in the table, and no two rows share an id |
| Pivot.FormatColumns | jjj.js:151-157 | the columns of row i, besides `id`, are the image ids of the i-th distinct point |
| Pivot.PivotKeepsUniqueCell | jjj.js:151-157 | a triplet whose (point, image) pair is unique is found unchanged in its point's row |
| Pivot.FormatHasRowOf | jjj.js:141-151 | the point of every triplet has its pivoted row in the output |
| Pivot.ImageNamedIdOverwritesRowId | jjj.js:157 | an image named "id" overwrites the point id with the reading, because `set` replaces the selected property |
| Merge.DateKey | jjj.js:173-175 | the date key is the first eight characters of the key, or the whole key when it is shorter |
| Merge.Contains | jjj.js:178 | a key that contains a date key is at least as long as it |
| Merge.DateKeys | jjj.js:173-176 | no distinct date key of a row is `id` |
| Merge.ContainsAtOffset | jjj.js:178 | the substring test holds exactly when the date occurs at some offset of the key |
| Merge.SameLengthContains | jjj.js:178 | between strings of the same length, the substring test is equality |
| Merge.MaxExists | jjj.js:179 | a finite non-empty set of values has a largest element |
| Merge.MaxOf | jjj.js:179 | the max reducer returns an element of the set that bounds all others |
| Merge.DateKeySelectsItsColumn | jjj.js:173-178 | the date key cut from a column selects that column |
| Merge.IdOnly | jjj.js:182 | `select([rowId])` keeps only the `id` property, unchanged |
| Merge.DateKeyOfColumnIsNotRowId | jjj.js:172-174 | no column other than `id` yields `id` as its date key |
| Merge.DateKeysSelect | jjj.js:176-179 | every date key selects at least one value, so the max reducer is defined, and no date key is `id` |
| Merge.MergedValue | jjj.js:178-179 | the merged value of a date is at least every column containing the date and equals one of them |
| Merge.MergedCells | jjj.js:177-181 | the merged pairs have exactly the distinct date keys, and none is `id` |
| Merge.MergeRow | jjj.js:170-183 | the merged row keeps `id` unchanged, has exactly the distinct date keys of the non-id keys besides it, and holds only numbers; MergedIsMaxOfContaining gives each cell as the max over the columns containing its date |
| Merge.MergeTable | jjj.js:169-184 | one merged row per input row |
| Merge.MergedIsMaxOfContaining | jjj.js:163-181 | a date's merged cell is at least every column containing that date and equals one of them |
| Merge.MergedBoundsSameDate | jjj.js:163-181 | a merged cell is at least every granule of its own date |
| Merge.MergedNoDataIffAllNoData | jjj.js:132-181 | with no value below -9999, a merged cell is -9999 exactly when every column it draws on is -9999, and then every granule of that date is |
| Merge.DateKeyImageBound | jjj.js:173-176 | there are no more distinct date keys than keys |
| Merge.MergeColumnCount | jjj.js:172-182 | merging never adds a column |
| Merge.MergedKeysAreDates | jjj.js:173-176 | when every key has at least eight characters, every merged column key has exactly eight |
| Merge.DatedRowDateKeys | jjj.js:173-176 | in a row keyed by eight-character dates, the date keys are the column keys |
| Merge.DatedRowCell | jjj.js:177-181 | in such a row each date selects only its own column, so its merged cell is unchanged |
| Merge.DatedRowCells | jjj.js:170-183 | merging such a row keeps every cell |
| Merge.DatedRowKeys | jjj.js:170-183 | merging such a row keeps its keys |
| Merge.DatedRowIsFixed | jjj.js:170-183 | a row keyed by eight-character dates is left exactly as it is by merging |
| Merge.MergeIdempotent | jjj.js:169-184 | when every key has at least eight characters, merging twice equals merging once |
| Pipeline.NdviTimeSeries | jjj.js:161-185 | the exported table has no more rows than there are points, and each row holds only numbers besides `id` |
| Pipeline.DistinctCard | jjj.js:141 | a list of distinct ids has as many distinct elements as entries |
| Pipeline.SeqSetCard | jjj.js:141 | a list has no more distinct elements than entries |
| Pipeline.RowsAtMostPoints | jjj.js:125-159 | the pivot has no more rows than there are points, since its rows are distinct point ids |
| Pipeline.OutputRowIsMerged | jjj.js:161-185 | output row r is the merge of pivoted row r |
| Pipeline.TripletImagesAreImages | jjj.js:136 | when no image is named "id", no triplet carries the image id "id" |
| Pipeline.TripletIdsArePoints | jjj.js:125-138 | with at least one image, the ids in the triplet table are exactly the point ids |
| Pipeline.OutputRowId | jjj.js:157-182 | when no image is named "id", output row r carries, under `id`, the r-th distinct point id |
| Pipeline.EveryPointHasRow | jjj.js:125-185 | with at least one image and none named "id", every point has an output row |
| Pipeline.EveryRowIsPoint | jjj.js:125-185 | when no image is named "id", every output row carries the id of one of the points |
| Pipeline.OutputRowIdsDistinct | jjj.js:140-185 | when no image is named "id", no two output rows carry the same point id |
| Pipeline.ReadingReachesOutput | jjj.js:125-185 | with distinct point ids, distinct image ids and no image named "id", the row of point j has the date column of image i, holding at least that image's filled reading |
| Pipeline.NdviAboveNoData | jjj.js:132-135 | when readings lie in [-1, 1], no triplet lies below -9999 |
| Pipeline.PivotedCellsAboveNoData | jjj.js:151-157 | when no triplet lies below -9999, no cell of a pivoted row does either |
| Pipeline.OutputNoDataIffAllNoData | jjj.js:132-185 | with readings in [-1, 1], an output date cell is -9999 exactly when every pivoted column containing that date is -9999 |
| MergeExamples.TwoGranuleKeys | jjj.js:163-176 | a row with granules A and B of 1 January and granule A of 5 January has the date keys 20190101 and 20190105 |
| MergeExamples.TwoGranuleJanuary1 | jjj.js:178 | 20190101 selects both granules of 1 January and not the one of 5 January |
| MergeExamples.TwoGranuleJanuary5 | jjj.js:178 | 20190105 selects only the granule of 5 January |
| MergeExamples.TwoGranuleJanuary1Cell | jjj.js:163-181 | a missing reading (-9999) loses to the valid reading 0.5 of the same day |
| MergeExamples.TwoGranuleJanuary5Cell | jjj.js:177-181 | a date with one granule keeps its value |
| MergeExamples.TwoGranuleMergedKeys | jjj.js:182 | the merged row has the keys `id`, 20190101 and 20190105 |
| MergeExamples.MergeTwoGranules | jjj.js:163-183 | the complete merged row of the two-granule example |
| MergeExamples.MergeAllMissing | jjj.js:130-181 | a day whose granules are all missing merges to -9999 |
| MergeExamples.EmbeddedDateKeys | jjj.js:172-176 | a key starting 20190105 that also contains 20190101 has the date key 20190105 |
| MergeExamples.EmbeddedDateMatching | jjj.js:178 | 20190101 also selects that key of 5 January |
| MergeExamples.SubstringGroupsAcrossDates | jjj.js:178 | the 1 January cell takes 0.9 from a column dated 5 January, although the only column dated 1 January holds 0.2 |

## Left out

- Point sampling, the GAUL boundary and the land-cover layer (jjj.js:1-22): these are Earth Engine data sets. Points enter the model as a sequence of ids.
- Image collection filtering by date and bounds, and `getImage` (jjj.js:52-60, 69-71): these are queries to the service. Images enter the model as a sequence of ids.
- `addNDVI` (jjj.js:47-50): `normalizedDifference` is floating-point band arithmetic. Its only modelled consequence is the [-1, 1] range assumed by `Pipeline.NdviAboveNoData`.
- `reduceRegions` with the `first` reducer at scale 10 (jjj.js:126-130): this is raster sampling on the server. It is the parameter `reduce`, which gives an optional reading per image and point. The masking predicate is modelled on its own, per pixel, and is not wired into `reduce`.
- Masking.MaskCloudAndShadows: models one pixel of integer bands. It does not model how Earth Engine carries masks through `select` and `and`, where a pixel already masked in an input band stays masked.
- The map layers, the charts and `print` (jjj.js:25-29, 62-67, 73-123): these are display only.
- `Export.table.toDrive` (jjj.js:187-193): this is I/O. The model stops at the exported feature collection, `Pipeline.NdviTimeSeries`.
- Geometry of features: `select([rowId])` (jjj.js:157, 182) keeps a feature's geometry, so the exported features carry their point geometry. The model leaves it out because no cell of the table depends on it.
- Order of columns: a feature's properties are a dictionary, so the model uses maps and sets of keys. The order in which Earth Engine lists keys and distinct date keys is not modelled.
- Pivot.Distinct: keeps the first occurrence of each id. Earth Engine does not promise which feature `distinct` keeps or in what order, so only the set of ids is relied on.
- Short frame ids: a key shorter than eight characters is not rejected. `slice(0, 8)` returns the whole key, and the model does the same (`Merge.DateKey`).
- Grouping by substring rather than by prefix is modelled as written (`stringContains`). `MergeExamples.SubstringGroupsAcrossDates` shows a row where it mixes dates. The model assumes nothing about the form of image ids. A merged cell takes only granules of its own date exactly when no image id of another date contains that date anywhere in its text. That includes any second date-time an id carries after its first one.
- Order of the join's matches: `ee.Join.saveAll('matches')` (jjj.js:142) is given no `ordering`. The model assumes the matches come in table order, which decides the last-wins rule used for a repeated (id, imageID) pair in Pivot.DictLastWins and Pivot.PivotRow.
- Merge.Matching and Merge.DateKey: `Dictionary.select` (jjj.js:178) also accepts regular expressions as selectors, and `slice(0, 8)` (jjj.js:174) counts UTF-16 code units. The model selects literal keys and counts Dafny characters. The two agree for ASCII image ids without regular-expression metacharacters, which is the form of Sentinel-2 image ids.
- Distributed, lazy evaluation by the service: every collection is a finite sequence evaluated in full.
