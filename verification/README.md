# Soap-dish 3D pattern: mesh indexing and template rewriting in Dafny

The application turns an uploaded image into a soap-dish model. It writes the
image's outline into an OpenSCAD template, renders the template to an STL
mesh and shows that mesh as a Plotly `Mesh3d`. Three pieces of logic are the
application's own, and this project models and proves all three:

- **`stl2mesh3d`** (`streamlit_app.py:11-21`, copied unchanged in
  `streamlit-app.py:6-16`). It turns the STL triangle soup into an indexed
  mesh. In the soup, each of the `p` triangles holds its own copies of its
  three corners. The function flattens the soup to `3p` points. It runs
  `np.unique(..., return_inverse=True, axis=0)` to get the sorted table of
  distinct vertices and each point's position in that table. Then it reads
  the index lists `I`, `J`, `K` from the inverse index at flat positions
  `3t`, `3t+1` and `3t+2`.
- **The template rescale** (`streamlit_app.py:112`). This is
  `text.replace('0.25', sx, 1).replace('0.25', sy, 1)`. The template file
  is not part of this model. The code assumes that the template's X and Y
  slots are its first two `0.25`s, which matches the defaults
  `scales = [0.25, 0.25]` at line 77. `sx` and `sy` are the `str` forms of
  the scaled values (lines 81-83).
- **The scaled file name** (`streamlit_app.py:110`). This is
  `run_file.replace('.scad', '_scaled.scad')`.

Modules, one per concept:

- `Points` (`points.dfy`). Points with integer coordinates, the
  lexicographic row order numpy sorts by, and facts about strictly
  increasing sequences. The key fact is that such a sequence is determined
  by its set of elements.
- `Unique` (`unique.dfy`). `np.unique` with the inverse index. The sorted
  distinct table is built by sorted insertion. Each row is found in it by
  binary search. `IsUniqueOf` is the independent statement of what numpy
  promises. The result is proved to meet it, and only one result can meet it.
- `MeshIndexer` (`mesh_indexer.dfy`). `stl2mesh3d` itself: the reshape, the
  strided `np.take`, the method `Stl2Mesh3d`, and the indexed-mesh predicate
  `IsIndexedMeshOf`, with lemmas about any mesh that satisfies it.
- `PyStrings` (`py_strings.dfy`). Python's `str.find`, `str.replace(old,
  new, 1)` and `str.replace(old, new)`. This includes the empty-pattern case,
  where `find` returns 0 and `replace` inserts at every position.
- `Template` (`template.dfy`). The rescale and the file-name rewrite, each
  as written and as evidently intended (see Findings).
- `Options` (`options.dfy`). The `Option` type used for `find`'s -1 and for
  `np.take`'s IndexError.

Coordinates are `int`. The mesh code only compares points for exact equality
and sorts them, so any totally ordered coordinate type behaves the same.

The code has no shape check and raises no error of its own. The type
`Triangle` fixes the `(p, 3, 3)` shape that numpy-stl always produces. An
empty soup (`p = 0`) gives an empty table and empty `I`, `J`, `K`.

## Model

| member | source | states |
|---|---|---|
| Points.StrictlyIncreasingIsCanonical | streamlit_app.py:17 | Two sorted, duplicate-free point sequences with the same elements are equal. So the vertex table is fixed by the set of points alone. |
| Points.BelowIsStrictTotalOrder | streamlit_app.py:17 | The (x, y, z) row order is irreflexive, asymmetric, transitive and total, so a strictly increasing table is sorted and duplicate-free. |
| Points.StrictlyIncreasingCardinality | streamlit_app.py:17 | A sorted, duplicate-free table holds as many distinct points as it has entries. |
| Unique.Distinct | streamlit_app.py:17 | The table is strictly increasing in (x, y, z) order, so it is sorted and duplicate-free. It holds exactly the points of the input: each input point is in it, and each entry comes from the input. |
| Unique.Locate | streamlit_app.py:17 | Binary search in the table. The result is below the table length exactly when the point is in the table, and then the table holds the point at that position. |
| Unique.UniqueWithInverse | streamlit_app.py:17 | Returns a table and an inverse index that meet numpy's promise (`IsUniqueOf`): the table is sorted, duplicate-free and made of the input points; there is one in-range index per input row; each row is rebuilt through its index. |
| Unique.UniqueIsDeterministic | streamlit_app.py:17 | Any two results that meet numpy's promise for the same input are equal, both the table and the inverse index. |
| Unique.SameIndexIffSamePoint | streamlit_app.py:17 | Two input rows get the same inverse index exactly when they are the same point. |
| Unique.TableNoLongerThanInput | streamlit_app.py:15-17 | The table has at most as many entries as the flattened input. |
| MeshIndexer.Flatten | streamlit_app.py:17 | The reshape to `(3p, 3)` lists the corners triangle by triangle, `3p` points in all. |
| MeshIndexer.FlattenAt | streamlit_app.py:14-17 | The reshape to `(3p, 3)` puts triangle `t`'s corners 0, 1, 2 at flat positions `3t`, `3t+1`, `3t+2`. |
| MeshIndexer.FlattenHoldsCorners | streamlit_app.py:15-17 | The flattened list holds exactly the corners of the soup. |
| MeshIndexer.Strides | streamlit_app.py:18-20 | The list comprehension `[3*k + offset for k in range(p)]` gives `p` positions. For a corner offset below 3, each lies inside the `3p` flattened points. |
| MeshIndexer.TakeCornerSucceeds | streamlit_app.py:18-20 | Each of the three `np.take` calls on the `3p`-long inverse index succeeds (no IndexError) and gives one index per triangle. |
| MeshIndexer.Take | streamlit_app.py:18-20 | `np.take` gives `None` (IndexError) exactly when some position is out of range. Otherwise it gives one entry per position, namely the entry found at that position. |
| MeshIndexer.Stl2Mesh3d | streamlit_app.py:11-21 | `I`, `J`, `K` have length `p`. Every index is inside the table. `vertices[I[t]]`, `vertices[J[t]]`, `vertices[K[t]]` are triangle `t`'s corners 0, 1, 2 exactly. The table is strictly increasing and holds exactly the soup's corners. It has at most `3p` entries. |
| MeshIndexer.VerticesAreExactlyCorners | streamlit_app.py:15-17 | For any valid indexed mesh, every corner is in the table and every table entry is a corner. |
| MeshIndexer.VertexCountBound | streamlit_app.py:15-17 | For any valid indexed mesh, the table has at most `3p` entries. |
| MeshIndexer.SharedCornersShareIndices | streamlit_app.py:17-20 | Two corners anywhere in the soup get the same index exactly when they are the same point, so triangles that share an edge share its indices. |
| MeshIndexer.InterleaveIsInverse | streamlit-app.py:12-15 | Weaving `I`, `J`, `K` back together gives an inverse index of the flattened soup that meets numpy's promise. |
| MeshIndexer.IndexedMeshIsDeterministic | streamlit-app.py:12-15 | A soup has exactly one valid indexed mesh. So two runs on the same soup give the same table and the same `I`, `J`, `K`. |
| MeshIndexer.EmptySoupGivesEmptyMesh | streamlit-app.py:13-15 | With no triangles, the table and `I`, `J`, `K` are all empty. |
| MeshIndexer.SharedEdgeExample | streamlit-app.py:6-16 | Two triangles sharing an edge give a 4-vertex table, `I = [0, 2]`, `J = [2, 1]`, `K = [1, 3]`. The shared corners carry equal indices. |
| PyStrings.Find | streamlit_app.py:112 | `str.find` gives `None` (-1) exactly when the pattern occurs nowhere. Otherwise it gives a position where the pattern occurs, with no occurrence before it. |
| PyStrings.ReplaceFirst | streamlit_app.py:112 | `replace(old, new, 1)` leaves a text without `old` unchanged. Otherwise the length changes by `len(new) - len(old)`. |
| PyStrings.ReplaceFirstAt | streamlit_app.py:112 | With the first occurrence at `i`, the result is the text before `i`, then `new`, then the text after the occurrence. |
| PyStrings.ReplaceAll | streamlit_app.py:110 | `replace(old, new)` with a non-empty `old` leaves a text without `old` unchanged. |
| PyStrings.ReplaceAllAtFirst | streamlit_app.py:110 | `replace(old, new)` keeps the text before the first occurrence, puts `new` in its place, and carries on after it. |
| Template.Rescale | streamlit_app.py:112 | A template without `0.25` comes back unchanged. |
| Template.RescaleKeepsTextBeforeFirstSlot | streamlit_app.py:112 | The rescale keeps the template text before its first `0.25`, except the last three characters before it. The result is at least that long. |
| Template.RescaleCanRewriteBeforeFirstSlot | streamlit_app.py:112 | Those three characters can change. With template `0.20.25` and X string `5`, the first step makes a new `0.25`, and the second step replaces it. |
| Template.RescaleAtFullXScaleMissesYSlot | streamlit_app.py:112 | At 100 % X scale, the X string is `0.25` itself (line 81). The Y string then lands in the X slot, and the Y slot keeps `0.25`. |
| Template.RescaleWithSlotPrefixedXMissesYSlot | streamlit_app.py:112 | Whenever the X string begins with `0.25` (100 % gives `0.25`; 101-103 % give `0.2525`, `0.255`, `0.2575`), the Y string replaces the `0.25` at the start of the X string. Everything after it, the Y slot included, is kept. |
| Template.ReplaceSlotAfterAbsentPrefix | streamlit_app.py:112 | One step of line 112: after a prefix without `0.25`, `replace('0.25', s, 1)` replaces the slot right after the prefix and keeps everything else. |
| Template.RescaleAgreesWithSlots | streamlit_app.py:112 | For a template `pre 0.25 mid 0.25 post` with no `0.25` in `pre` or `mid`, the rescale as written equals the slot-wise rescale whenever `pre + sx + mid` holds no `0.25`. So line 112 fills the right slots unless the X string forms a new `0.25`. |
| Template.RescaleSlotsFillsBothSlots | streamlit_app.py:112 | The slot-wise rescale puts the X string in the template's first `0.25` and the Y string in the next one, for all strings. |
| Template.FullXScaleCounterexample | streamlit_app.py:112 | On `scale([0.25, 0.25])` with X `0.25` and Y `0.125`, the rescale as written gives `scale([0.125, 0.25])`. The slot-wise rescale gives `scale([0.25, 0.125])`. |
| Template.ScaledPath | streamlit_app.py:110 | A path without `.scad` is kept unchanged. |
| Template.ScaledPathRenamesExtension | streamlit_app.py:110 | When the path's only `.scad` is its extension, `_scaled` is put before it. |
| Template.ScaledPathRewritesDirectories | streamlit_app.py:110 | A `.scad` in a directory name is renamed too, e.g. `/srv/a.scad/preview.scad` becomes `/srv/a_scaled.scad/preview_scaled.scad`. |
| Template.ScaledRunFileRenamesOnlyTheFile | streamlit_app.py:110 | The extension-only rewrite renames just the trailing `.scad`, whatever the rest of the path holds. It agrees with the as-written rewrite when that extension is the only `.scad`. |
| Template.ScaledRunFileKeepsDirectories | streamlit_app.py:110 | On `/srv/a.scad/preview.scad`, the extension-only rewrite leaves the directory alone. |

## Left out

- Streamlit widgets, buttons and `st.stop` control flow (`streamlit_app.py:66-143`). This is user interface.
- The `convert`, `potrace`, `Xvfb` and `openscad` shell calls (`streamlit_app.py:100-127`). These are external processes.
- Uploading, writing, reading and deleting files (`streamlit_app.py:69-71, 94-96, 107-114, 131-137`). This is I/O.
- STL parsing with numpy-stl, the Plotly figure, the HTML export and the chart_studio upload (`streamlit_app.py:23-63`, `streamlit-app.py:18-46`). These are foreign library calls. The script in `streamlit-app.py` also refers to an undefined `mesh3D` at line 33.
- Floating-point coordinates, including NaN and signed zero. Coordinates are `int`, and equality is exact, as in the source.
- The float arithmetic of the scale percentages (`streamlit_app.py:81-83`). The X and Y scale strings are arbitrary strings.
- Array shapes other than `(p, 3, 3)`. The `Triangle` type excludes them. numpy-stl always yields this shape, and the code does no shape check of its own.
- `p = 0`: the model returns empty outputs. Whether numpy's `take` accepts the empty Python index list (numpy types it as float) is library behaviour and is not modelled.
- Negative positions in `np.take`. Positions are `nat` here, and the code only computes non-negative ones.
- How `np.unique` works inside (sorting versus hashing) and its running time. Only its result is modelled.
- Template.RescaleKeepsTextBeforeFirstSlot: keeps all but the last three characters before the first slot, not the whole prefix, because `Template.RescaleCanRewriteBeforeFirstSlot` shows the whole prefix can change.

## Findings

| source | as written | input that shows it | evidently intended | confidence | as-written member | corrected member |
|---|---|---|---|---|---|---|
| streamlit_app.py:112 | The Y scale replaces the first `0.25` of the text after the X replacement. | X scale 100 % (`"0.25"`) and Y scale 50 % (`"0.125"`) on a template whose slots read `scale([0.25, 0.25])` give `scale([0.125, 0.25])`. X scales of 101 %, 102 % and 103 % (`"0.2525"`, `"0.255"`, `"0.2575"`) also begin with `0.25`, and the Y string lands in the X slot in the same way. | X into the first slot and Y into the second: `scale([0.25, 0.125])`. | not executed; high for the rewrite itself. The template file is not part of this model, so its slot layout is assumed. `Template.RescaleAgreesWithSlots` shows that only an X string forming a new `0.25` goes wrong. | Template.RescaleAtFullXScaleMissesYSlot | Template.RescaleSlotsFillsBothSlots |
| streamlit_app.py:110 | Every `.scad` in the whole path becomes `_scaled.scad`. | A working directory `/srv/a.scad/` gives `/srv/a_scaled.scad/preview_scaled.scad`. That directory does not exist, so the write at line 113 fails. | Rename only the file: `/srv/a.scad/preview_scaled.scad`. | not executed; medium. It needs a working directory whose name contains `.scad`. | Template.ScaledPathRewritesDirectories | Template.ScaledRunFileRenamesOnlyTheFile |
