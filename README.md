# File grid for a diagram editor, modelled in Dafny

The plugin `directoryVisualizer.js` lets a user pick a local directory and
draws one labelled rectangle per file into the open diagram, in a grid of
three columns. This project models the logic inside `createFileGrid` once the
directory has been enumerated:

- **Record collection** (`FileGrid.Files`, `FileGrid.CollectFiles`): only the
  entries of kind `'file'` are kept, in enumeration order. Each one becomes a
  record holding its name, extension, size text and date text.
- **Extension extraction** (`FileName.Extension`): `name.split('.').pop()`,
  with JavaScript's `split` modelled as `FileName.Split`.
- **Size text** (`FileSize.FormatFileSize`): `"0 Bytes"` for 0. Otherwise the
  unit is the `i`-th of Bytes, KB, MB, GB, where `i` is the floor of the
  base-1024 logarithm, computed exactly with integer powers of 1024.
- **Label** (`Records.Label`): the fixed HTML template filled with name,
  extension, size and date. `Records.ParseLabel` reads the fields back and is
  the label's inverse. It exists only for the proofs; its helper
  `Records.UpToTag` takes the longest prefix of a text without a '<'.
- **Grid placement** (`Grid.CellAt`, `FileGrid.PlaceFiles`): index `i` goes to
  column `i % 3` and row `i / 3`, at `x = 50 + col*230`, `y = 50 + row*130`,
  size 200 x 100. `Grid.IndexAt` recovers the index from a corner.
- **The whole pass** (`FileGrid.CreateFileGrid`): one vertex per file entry.
  Its value is its record's label, its cell is the cell of its position in the
  file list, and its style is the plugin's fixed style string. Each
  `insertVertex` call is modelled as appending a `Vertex` to the output
  sequence.

Inputs the code gets from the host are parameters:

- The directory listing is a `seq<Entry>`. Each entry is a `FileEntry` with
  the size and timestamp `getFile` reports, or a `DirectoryEntry`.
- `Records.Host` holds, as two functions, the host's floating-point rendering
  of a quotient (`parseFloat(x.toFixed(2))`) and its locale-dependent date
  rendering (`toLocaleDateString` of a timestamp).

Two facts about the code shape the model:

- The code does not clamp the unit index: `sizes[i]` is undefined from 1024^4
  bytes up, so `FormatFileSize` requires `bytes < 1024^4`
  (`FileSize.InUnitRange`).
- The origin, cell size, gaps and the three columns are constants in the code
  (directoryVisualizer.js:53-59), so a column count of 0 cannot occur.

## Model

| member | source | states |
|---|---|---|
| Grid.Col | directoryVisualizer.js:59-63 | the column is below 3, and row * 3 + column gives back the index |
| Grid.Row | directoryVisualizer.js:59-64 | row r holds the indices from 3r up to 3r + 2 (floor division by the column count) |
| Grid.CellAt | directoryVisualizer.js:53-67 | every cell is 200 x 100, its x is 50, 280 or 510, and its y is 50 plus a multiple of 130 |
| Grid.IndexAtCell | directoryVisualizer.js:63-67 | the corner of the cell at index i leads back to i through IndexAt |
| Grid.CellAtIndex | directoryVisualizer.js:63-67 | a corner IndexAt accepts is exactly the corner of the cell at the index it returns |
| Grid.PlacementInjective | directoryVisualizer.js:63-67 | distinct indices get distinct (x, y) corners |
| Grid.CellsDisjoint | directoryVisualizer.js:55-58 | the cells of distinct indices are at least a 30-pixel gap apart in some direction, so they do not overlap |
| Grid.RowMembers | directoryVisualizer.js:59-67 | a cell lies in row r exactly when its index is 3r, 3r + 1 or 3r + 2 |
| Grid.RowMajorOrder | directoryVisualizer.js:62-67 | a later index is in a later row, or in the same row further right |
| Grid.FourFilesLayout | directoryVisualizer.js:53-67 | the cells of indices 0 to 2 form row 0 and the cell of index 3 starts row 1 at x = 50, y = 180 |
| FileName.Split | directoryVisualizer.js:45 | split yields at least one piece, no piece holds the separator, and a text without the separator is its own single piece |
| FileName.Extension | directoryVisualizer.js:45 | `split('.').pop()`: the extension holds no dot, and a name without a dot is its own extension; ExtensionAfterLastDot pins it down as the text after the last dot |
| FileName.JoinSplit | directoryVisualizer.js:45 | joining the pieces of a split with the separator gives back the text |
| FileName.ExtensionAfterLastDot | directoryVisualizer.js:45 | the extension is a dot-free suffix of the name: the text right after the last dot, or the whole name when there is no dot |
| FileName.TextAfterLastDotUnique | directoryVisualizer.js:45 | only one text meets that description, so it fixes the extension |
| FileName.ExtensionOfTrailingDot | directoryVisualizer.js:45 | a name ending in a dot has the empty extension |
| FileName.NameSplitsAtLastDot | directoryVisualizer.js:45 | a name with a dot equals the part before the last dot, the dot and the extension |
| FileName.ExtensionOfDottedName | directoryVisualizer.js:45 | the extension of "report.final.pdf" is "pdf" |
| FileName.ExtensionOfPlainName | directoryVisualizer.js:45 | the extension of "README" is "README" |
| FileSize.UnitIndex | directoryVisualizer.js:95-97 | the unit index i of a positive size satisfies 1024^i <= bytes < 1024^(i+1) |
| FileSize.UnitIndexUnique | directoryVisualizer.js:97 | no other index satisfies those bounds |
| FileSize.UnitIndexMonotone | directoryVisualizer.js:97 | a larger size never gets a smaller unit |
| FileSize.UnitIndexInTable | directoryVisualizer.js:96-97 | a positive size below 1024^4 picks one of the four defined units |
| FileSize.FormatFileSize | directoryVisualizer.js:93-99 | 0 gives "0 Bytes"; a positive size gives the rendered quotient by 1024^i, a space and the i-th unit, for an i with 1024^i <= bytes < 1024^(i+1) among the four units (FormatZero, FormatInBand) |
| FileSize.FormatZero | directoryVisualizer.js:94 | a size of 0 gives "0 Bytes" |
| FileSize.FormatInBand | directoryVisualizer.js:95-98 | for 1024^i <= bytes < 1024^(i+1) with i <= 3, the text is the rendered quotient bytes / 1024^i, a space and the i-th unit, and that quotient lies in [1, 1024) |
| FileSize.FormatKilobytes | directoryVisualizer.js:95-98 | 1536 bytes are shown in KB, and the quotient by the power of 1024 the model picks is 1.5 |
| FileSize.FormatMegabyte | directoryVisualizer.js:95-98 | 1048576 bytes are shown as the quotient by 1048576 in MB |
| FileSize.FormatGigabyte | directoryVisualizer.js:95-98 | 1073741824 bytes are shown as the quotient by 1073741824 in GB |
| Records.Describe | directoryVisualizer.js:43-48 | the record of a file entry keeps its name, takes as extension the text after the last dot (ExtensionAfterLastDot), gives as size text formatFileSize of its size ("0 Bytes" for an empty file) and the host's date text of its timestamp; CollectFiles builds one per file entry |
| Records.Label | directoryVisualizer.js:102-108 | the label opens with the template's head followed by the name, and its length is that of the template pieces plus the four fields; LabelRoundTrip shows all four fields are carried in order |
| Records.LabelRoundTrip | directoryVisualizer.js:102-108 | the label carries name, extension, size and date in that order: when no field holds a '<', parsing the label gives back the record |
| Records.ParseLabelExact | directoryVisualizer.js:102-108 | any text that parses as a label is exactly the label of the record it parses to |
| Records.LabelInjective | directoryVisualizer.js:102-108 | records whose fields hold no '<' have distinct labels when they differ |
| FileGrid.Files | directoryVisualizer.js:40-41 | the kept entries are all of kind 'file' and all come from the enumeration |
| FileGrid.FilesAppend | directoryVisualizer.js:40-49 | filtering a concatenation is the concatenation of the filtered parts, so enumeration order is kept |
| FileGrid.FilesMembers | directoryVisualizer.js:40-41 | an entry is kept exactly when it is a file entry of the enumeration |
| FileGrid.FilesOfOnlyFiles | directoryVisualizer.js:40-41 | a listing of only files is kept whole |
| FileGrid.FilesOfNoFiles | directoryVisualizer.js:40-41 | a listing of only directories yields no record |
| FileGrid.CollectFiles | directoryVisualizer.js:39-50 | the loop produces one record per file entry, in order: the name, its extension, its size text and its date text |
| FileGrid.PlaceFiles | directoryVisualizer.js:62-77 | the loop produces exactly one vertex per record, labelled with that record, at the cell of its index, with the fixed style; no two of the vertices overlap |
| FileGrid.FourFilesGrid | directoryVisualizer.js:40-77 | a listing of four files gives exactly four rectangles in enumeration order: three left to right in row 0 and the fourth at (50, 180), each labelled with its own file's record |
| FileGrid.CreateFileGrid | directoryVisualizer.js:38-77 | the whole pass produces one vertex per file entry, in enumeration order, each labelled with its own file's record and placed without overlap |

## Left out

- Plugin and menu registration (`Draw.loadPlugin`, `addAction`, `addMenu`): host UI plumbing with no logic.
- The directory picker, the asynchronous enumeration and `getFile`: browser I/O. The listing is a given `seq<Entry>`, and each file entry already holds what `getFile` reports.
- `beginUpdate`/`endUpdate`, `getDefaultParent` and `fit`: host graph calls with no effect on what is computed. `insertVertex` is modelled as appending to the output sequence.
- Error alerting (`console.error`, `mxUtils.alert`): every error comes from the host's I/O or graph calls, which are not modelled.
- `toLocaleDateString`: it depends on locale and time zone. It is the `dateString` parameter of `Records.Host`.
- `Math.log`, `Math.pow`, `toFixed(2)` and `parseFloat`: floating point. The unit index is modelled as the exact floor of the base-1024 logarithm. Near exact powers of 1024, a floating-point logarithm could round differently. The decimal text of the quotient is the `twoDecimals` parameter of `Records.Host`.
- FileSize.FormatFileSize, Records.Describe (through `Describable`), FileGrid.CollectFiles, FileGrid.CreateFileGrid and FileGrid.FourFilesGrid (through `SizesInUnitRange`): require sizes below 1024^4 bytes. From there on the code indexes past the unit table and prints `undefined` for the unit.
- The HTML markup of the label and the style string are copied as constant text. The label does not escape its fields, so `Records.LabelRoundTrip` holds only for fields without '<'.
