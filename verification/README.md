# ROK4 server: a verified model

This project models the parts of the ROK4 tile server in which processes, caches, coordinates and
texts have to fit together, and proves properties of them for all inputs and all runs. It is written
in Dafny 4.11; `dafny verify dfyconfig.toml` checks everything.

| module | what it models |
|---|---|
| `SlabProtocol` | on-the-fly generation of slabs: request threads and forked children that share the files slab, `.tmp` and `.err`, as a transition system with one step per system call and an alarm that may end a child anywhere |
| `ProcessPool` | `ProcessFactory`, the bounded pool of children and its pid file |
| `Reload`, `LayerGraph`, `LayerRuns`, `ServerReload` | the incremental reload of the configuration: the registries of TMS and styles against a full load, the layers copied onto them, these against a full load over runs of edits, and the whole reload on the heap |
| `TileWindow`, `SlabAddress`, `CropPadding`, `LevelChoice` | pixel windows cut into tiles, tiles inside slabs and index, the padded crop of a reprojection, the choice of a level (geometry of section 6.1 of OGC 07-057r7) |
| `UrlDecode`, `KeyValue`, `Routing` | from the bytes of a request to the operation that answers it |
| `Templates`, `MapStyles`, `NoData`, `FieldLists` | capabilities templates, pairing of layers and styles, separator-delimited lists |
| `CInt`, `Options` | the integer conversions of C++, optional values |

Objects whose methods change their fields are classes, loops are loops with invariants, and in-place
algorithms work on arrays; each is tied to a function of its input or old state, about which the
properties are proved.

What the environment does is a parameter: the answers of `fork` and `kill`, whether a file could be
created, opened or removed, the order of a directory listing and of a map, dates and clocks, the parser of a configuration file
(any function from its name and content), the catalogue of layers that a request meets. The `.err`
file is created by `initializeLogger`, as the comment at rok4server/Rok4Server.cpp:947-949 says. A
TMS or style is registered under the name of its file. `rok4server/config.h.in:76` gives the hundred
processes that the pid file is read up to; the server itself passes no file name
(rok4server/Rok4Server.cpp:216), so its pool is persistent only for other users of the class.

## Where the code falls short of what one would expect

Each of these is a theorem with the exact condition; the code is modelled as it is.

- A child does not look again at the slab after its parent did, so a request can read a torn slab
  (`SlabProtocol.StaleChildTearsRead`, with `SlabProtocol.LaterReadsAreCompleteIffSettled`), and a
  child ended by the alarm, or unable to remove `.err`, can block its slab for good
  (`SlabProtocol.ServedIffNotLost`).
- The pid file is created without the right to read it, so an unprivileged server forgets what it
  saved (`ProcessPool.SavedIsRemembered`, `ProcessPool.CreatedFileIsForgotten`).
- `euclideanDivisionQuotient` is one too low on negative multiples
  (`TileWindow.QuotientIsFloorIffExact`). An inverted window is rejected by the unsigned comparison,
  except inside one column of tiles, where it is accepted with a negative width
  (`TileWindow.PositiveSizesIffNotInverted`), and unless a negative limit was configured
  (`TileWindow.NegativeIsRefusedIff`).
- The range test of tiles compares `int` with `uint32_t` (`SlabAddress.RangeTestIsExact`), and places
  and offsets in a slab are computed in 32 bits (`SlabAddress.PlacesAreExactIff`,
  `SlabAddress.OffsetsAreExactIffIndexFits`).
- `best_level` compares the first level with the x resolution and the others with the mean of both
  (`LevelChoice.AlwaysTheBestIffSquare`).
- A file written in the second of the last reload is not noticed (`Reload.SameSecondIsMissed`), and
  a reload accepts a directory without any valid file where the start of the server does not
  (`Reload.Refresh`, `Reload.BuildList`).
- A copied layer that loses a style is kept, shortened and without a default style; if it loses its
  first one, the next copy of it takes the first element of an empty list
  (`LayerGraph.CopyIsReadyIff`, `LayerGraph.RunKeepsReadyIff`). A style that appears later is not
  taken up (`LayerGraph.CopyIsFullLoadIff`), nor is the removal of a `.pyr` noticed
  (`LayerRuns.EditKeepsCurrentIff`). The comment at
  rok4server/Layer.cpp:152 announces an error that is not raised.
- A query is decoded before it is cut, so an escaped "&" separates all the same
  (`KeyValue.QueryArrives`); escaped control characters become "_" (`UrlDecode.DecodePrint`).
- `split` loses a trailing empty field, so STYLES ending with a comma is one style short
  (`MapStyles.TrailingEmptyStyleIsLost`).
- The style of a TMS tile is looked up under the wrong one of its two names
  (`Routing.TileHasStyleIff`).
- A layer or level named "1.0.0" cannot be reached by its TMS links (`Routing.TileLinkIsTile`).

## Model

| member | source | states |
|---|---|---|
| `SlabProtocol.ProtocolIsSafe` | rok4server/Rok4Server.cpp:880-992 | in every state of every run of readers, children and alarms, at most one child (alive or ended by the alarm) stands between its exclusive open of `.tmp` and the removal, it implies that `.tmp` exists, and a slab that exists but is not complete implies `.tmp` or `.err` |
| `SlabProtocol.StepKeepsInv` | rok4server/Rok4Server.cpp:880-992 | every step of every process, and the alarm at any moment, keeps the invariant behind this, among it: once a generation has begun, no `.tmp` and no `.err` mean a complete slab |
| `SlabProtocol.RunKeepsInv` | rok4server/Rok4Server.cpp:880-992 | the invariant holds in every state of every run, from any files an earlier server can have left |
| `SlabProtocol.UsualReadsCompleteSlab` | rok4server/Rok4Server.cpp:880-887 | a request that saw the slab and then takes the usual branch reads the complete slab both times, in every run in which no child acquires `.tmp` from its check of `.tmp` on |
| `SlabProtocol.StaleChildTearsRead` | rok4server/Rok4Server.cpp:906-940 | that proviso is needed: a run in which the usual branch reads a partial slab, because a second child does not look again at what its parent saw |
| `SlabProtocol.LaterReadsAreCompleteIffSettled` | rok4server/Rok4Server.cpp:880-940 | the exact condition: while a complete slab stands without markers, no run makes a later request read a partial slab if and only if the state is settled, that is, no living child waits at its start and no request that missed the slab may still fork one |
| `SlabProtocol.DyingHolderJams` | rok4server/Rok4Server.cpp:99-104 | the alarm ending a child that holds `.tmp` jams the slab |
| `SlabProtocol.EveryHolderCanBeEnded` | rok4server/Rok4Server.cpp:99-104 | and the alarm can do this to every living holder at every place in every reachable state |
| `SlabProtocol.JammedForever` | rok4server/Rok4Server.cpp:893-945 | from then on, over every run: `.tmp` stays, no child acquires it, slab and `.err` never change, and every request whose checks start later can only be answered on demand |
| `SlabProtocol.TmpIsLostIffJammed` | rok4server/Rok4Server.cpp:923-988 | these are exactly the lost states: from any other state with `.tmp` some run removes it |
| `SlabProtocol.HolderCanRelease` | rok4server/Rok4Server.cpp:951-988 | a living holder can always still reach the removal of `.tmp` |
| `SlabProtocol.SettledForever` | rok4server/Rok4Server.cpp:880-887 | once settled, no file ever changes again and every later request reads the complete slab, in every run |
| `SlabProtocol.ServedIffNotLost` | rok4server/Rok4Server.cpp:880-992 | in every reachable state, some run still answers a later request from the slab, then complete, if and only if the state is not lost: neither jammed nor condemned, which means that `.err` is there, no living child removes it and nobody is left who can take `.tmp` |
| `SlabProtocol.LostForever` | rok4server/Rok4Server.cpp:880-992 | from a lost state on, in every run, no later request is answered from the slab |
| `SlabProtocol.FailedRemovalCondemns` | rok4server/Rok4Server.cpp:956-966 | a child that completed the slab and cannot remove `.err` condemns it if and only if nobody is left who can generate it again |
| `SlabProtocol.TornSlabNeedsFailedRemoval` | rok4server/Rok4Server.cpp:951-992 | over every run started on files without a torn slab: a partial slab without `.tmp` appears only after a child failed to remove the slab it could not complete |
| `SlabProtocol.HolderLeaves` | rok4server/Rok4Server.cpp:951-992 | what a holder leaves whose own steps all succeed, from any place: the complete slab and no marker, or, after a failed generation, no slab and the `.err` as it was |
| `SlabProtocol.FailedGenerationIsRemoved` | rok4server/Rok4Server.cpp:967-988 | in every reachable state, a child standing after a failed generation whose own steps succeed ends with no slab, no `.tmp` and an `.err` |
| `SlabProtocol.FailureIsCleanedUp` | rok4server/Rok4Server.cpp:951-988 | the same from the step that fails, before or after something was written |
| `SlabProtocol.OnlyChildrenChangeFiles` | rok4server/Rok4Server.cpp:923-992 | a file changes only by a step of a living child that succeeds, the logger apart, and each place changes only the file it is about |
| `SlabProtocol.StartsIffMarked` | rok4server/Rok4Server.cpp:880-892 | a server may start on any leftover files but a torn slab without a marker |
| `ProcessPool.StepKeepsExact` | rok4server/ProcessFactory.cpp:84-200 | every operation, whether its file can be opened and removed or not, keeps: the count is the length of the list, within the maximum, without repetition, when `fork` gives a pid that is not in the list; `killAllPid` ends with zero |
| `ProcessPool.RunKeepsExact` | rok4server/ProcessFactory.cpp:84-200 | so after every sequence of operations |
| `ProcessPool.CountStaysIffAnswersAgree` | rok4server/ProcessFactory.cpp:117-131 | the count is lowered once per dead entry while equal entries are removed together: count and length stay in step if and only if `kill` answers alike about equal pids |
| `ProcessPool.SavedIsRemembered` | rok4server/ProcessFactory.cpp:203-280 | when all processes run on, a restart remembers the processes that were saved if and only if there are none, or the file can be opened for reading and they are at most a hundred; otherwise the first hundred, or nothing |
| `ProcessPool.CreatedFileIsForgotten` | rok4server/ProcessFactory.cpp:249-254 | the file that the constructor creates lets its owner write but not read: whatever an unprivileged server saves in it, in any run of operations that does not remove it, a restart remembers nothing |
| `ProcessPool.NothingRememberedTwice` | rok4server/ProcessFactory.cpp:221-238 | a file that notes no pid twice gives lists without repetition |
| `ProcessPool.RememberedAre` | rok4server/ProcessFactory.cpp:221-238 | exactly the processes noted by a line and still found are remembered, in the order of the lines; a dead one is forgotten |
| `ProcessPool.SurvivorsAreLeft` | rok4server/ProcessFactory.cpp:117-131 | a process stays in the list if and only if no answer found it dead |
| `ProcessPool.WithoutGoesByEntry` | rok4server/ProcessFactory.cpp:117-131 | what is left of a list keeps its order and its repetitions |
| `ProcessPool.CheckedAndSaved` | rok4server/ProcessFactory.cpp:133-162 | after a check that saves: who is left in both lists, and the lines of the file one by one |
| `ProcessPool.AllAreKilled` | rok4server/ProcessFactory.cpp:165-199 | after killing: no current process, the previous ones that still run, and the file removed exactly when it would note nothing |
| `ProcessPool.ProcessFactory.constructor` | rok4server/ProcessFactory.cpp:61-77 | current and previous processes together are, in order, those of the first hundred lines that still run, and none when the file is missing or cannot be opened; previous ones exist only when the pool is full; a file that was read is rewritten to exactly these, one that cannot be opened is left alone, a missing one is created; without a file name nothing is read or written |
| `ProcessPool.ProcessFactory.UpdatePreviousProcess` | rok4server/ProcessFactory.cpp:203-257 | the reading loop establishes the same |
| `ProcessPool.ProcessFactory.CreateProcess` | rok4server/ProcessFactory.cpp:84-114 | refines the pool step: below the maximum a pid is added and counted, a failed `fork` or a full pool changes nothing |
| `ProcessPool.ProcessFactory.CheckCurrentPid` | rok4server/ProcessFactory.cpp:117-131 | refines the pool step: the list loses every pid found dead, the count one for each dead entry |
| `ProcessPool.ProcessFactory.CheckAndSaveAllPid` | rok4server/ProcessFactory.cpp:133-162 | refines the pool step: both lists are checked and the file, if there is one, is rewritten when it can be opened |
| `ProcessPool.ProcessFactory.KillAllPid` | rok4server/ProcessFactory.cpp:165-199 | refines the pool step: the current list is emptied and counted down, the file is removed when nothing is left and rewritten otherwise, as far as the system allows |
| `ProcessPool.ProcessFactory.WriteFile` | rok4server/ProcessFactory.cpp:260-280 | when the file can be opened it holds the current pids followed by the previous ones, with its mode unchanged, or the usual mode if it was missing; otherwise it is as before |
| `Reload.ReloadIsLoadIff` | rok4server/Rok4Api.cpp:223-280 | the incremental reload gives the registry that a full load of the directory gives if and only if every file that is not younger than the last reload and whose identifier is registered still says what is registered |
| `Reload.RunReloadIsLoad` | rok4server/Rok4Api.cpp:298-355 | by induction over runs of edits, removals and reloads, failed ones included: if every file written over a registered one is dated after the last reload or says the same, each successful reload leaves the registry of a full load |
| `Reload.StepKeepsCurrent` | rok4server/main.cpp:114-140 | an edit keeps the server current if and only if it is noticeable in this sense; a reload that works leaves the registry of a full load and its own date, and one that fails changes nothing |
| `Reload.SkippedFileStaysSkipped` | rok4server/Rok4Api.cpp:243-268 | a registered file not younger than the last reload is never read again in any run until it is written or removed |
| `Reload.SameSecondIsMissed` | rok4server/main.cpp:131-137 | a file rewritten in the second of the last reload with another meaning is such a file: the next reload differs from a full load |
| `Reload.RegisteredAre` | rok4server/Rok4Api.cpp:223-280 | what each identifier finds after a full load and after an incremental one |
| `Reload.BuildList` | rok4server/ConfLoader.cpp:144-193 | the full load: one entry for each valid file, whatever the order of the listing; it fails when nothing is loaded |
| `Reload.Refresh` | rok4server/Rok4Api.cpp:223-280 | the incremental load, whatever the order of the listing: the patched registry; it fails only when there is no file at all, so unlike the full load it accepts that no file is valid |
| `Reload.PatchFile` | rok4server/Rok4Api.cpp:238-266 | one file: its entry is what the patched registry wants, every other entry is as before |
| `Reload.Registry.Add` | rok4server/ServerXML.cpp:359-361 | an identifier that is there keeps its object |
| `Reload.Registry.Remove` | rok4server/ServerXML.cpp:372-378 | the identifier finds nothing any more and every other one finds what it found, whether it was there or not |
| `Reload.Registry.Clean` | rok4server/ServerXML.cpp:379-390 | after the loop over the entries, in any order, a listed identifier finds what it found and any other nothing |
| `LayerGraph.ReloadedLayersAreClosed` | rok4server/Rok4Api.cpp:374-462 | after a reload every registered layer points only to registered objects: its TMS is the registered one of that identifier, the TileMatrix of each level belongs to it, its styles are the registered ones |
| `LayerGraph.VanishedIsNotKept` | rok4server/Pyramid.cpp:121-143 | a layer whose TMS or a TileMatrix has vanished stays registered if and only if its files now describe a valid layer |
| `LayerGraph.CopyIsReadyIff` | rok4server/Layer.cpp:143-158 | a layer that loses a style is kept with the styles before it, without a default style; the copy has a first style, which the next copy takes, if and only if the first style is still registered |
| `LayerGraph.NextReloadIff` | rok4server/Layer.cpp:143-158 | the next reload finds a first style in every raster layer if and only if no copied layer has lost its first style |
| `LayerGraph.RunKeepsReadyIff` | rok4server/Rok4Api.cpp:374-462 | over any run of reloads, every raster layer of every server has a first style if and only if no reload of the run copies a layer that has lost its first one |
| `LayerGraph.CopyIsFullLoadIff` | rok4server/Layer.cpp:100-159 | a layer made from files that have not changed since is, once copied, the layer that a full load makes from them if and only if the list of styles in its file still names the same registered styles |
| `LayerGraph.ReloadLayers` | rok4server/Rok4Api.cpp:374-462 | the layers pass, whatever the order of the listing: a layer is read again or is the copy, as said file by file in `LayerRuns.NewerFilesAreRead`; identifiers without a file go; it fails only without any file |
| `LayerGraph.CopyLayers` | rok4server/Rok4Api.cpp:377-388 | exactly the layers whose TMS and TileMatrices are still registered are copied |
| `LayerGraph.PatchLayer` | rok4server/Rok4Api.cpp:395-452 | one layer file: what is registered under its identifier afterwards, and that nothing else changes |
| `LayerGraph.Layer.Clone` | rok4server/Layer.cpp:100-159 | the copy has a pyramid if and only if the TMS and every TileMatrix are registered; it is closed, keeps the data of the levels, and has the registered styles up to the first missing one |
| `LayerGraph.Pyramid.Clone` | rok4server/Pyramid.cpp:105-143 | the copy has the registered TMS and all levels, or no TMS if and only if the TMS or one TileMatrix is not there |
| `LayerGraph.Level.Clone` | rok4server/Level.cpp:107-150 | the level of the copy is on the TileMatrix of the same name of the new TMS and keeps its storage |
| `LayerGraph.TileMatrixSet.Clone` | rok4server/TileMatrixSet.cpp:77-89 | a copy with new TileMatrices, of the same names and the same geometry |
| `LayerGraph.BuildLayer` | rok4server/ConfLoader.cpp:256-264 | a layer is built if and only if its pyramid file, TMS, TileMatrices and styles resolve and, in INSPIRE mode, it has a metadata URL (rok4server/LayerXML.cpp:269); it is then closed over the registries and says what the files say |
| `LayerGraph.BuildStyles` | rok4server/LayerXML.cpp:349-386 | the loop over the style elements yields the styles specified |
| `LayerGraph.StylesOfAreRegistered` | rok4server/LayerXML.cpp:349-386 | these are never empty and all registered, and in INSPIRE mode the first one is an INSPIRE style |
| `LayerGraph.StylesAre` | rok4server/LayerXML.cpp:349-386 | the whole list: in the order of the file, each registered style that the elements name, in INSPIRE mode after the last INSPIRE style named or else the one called "inspire", and without the others that carry that identifier; so the default style is the first one; when the layer is refused |
| `LayerGraph.InspireNameIs` | rok4server/LayerXML.cpp:354-372 | the INSPIRE style is that of the last element naming one, and "inspire" without any |
| `LayerGraph.BuildPyramid` | rok4server/PyramidXML.cpp:89-95 | a pyramid is built if and only if its TMS is registered and its levels are some, distinct and on TileMatrices of that TMS |
| `LayerGraph.BuildLevels` | rok4server/PyramidXML.cpp:195-225 | the loop over the levels: unknown or repeated TileMatrices are refused |
| `LayerRuns.RunLoadsLayers` | rok4server/Rok4Api.cpp:374-462 | by induction over runs of edits and removals of `.lay` and `.pyr` files and reloads onto any TMS and styles: if nothing that happens goes unnoticed, each reload leaves the layers of a full load of the files as they are then |
| `LayerRuns.LayersReloadIsLoadIff` | rok4server/Rok4Api.cpp:374-462 | the reload leaves the layers of a full load if and only if every old layer that can be copied and none of whose files is dated after the last reload is still what its files describe |
| `LayerRuns.NewerFilesAreRead` | rok4server/Rok4Api.cpp:432-444 | whenever the `.lay`, or the `.pyr` that the old layer came from, is dated after the last reload, or the layer is new, what is registered is what the files describe |
| `LayerRuns.EditKeepsCurrentIff` | rok4server/main.cpp:114-140 | an edit or removal of a file keeps every layer current if and only if it is noticeable: dated after the last reload or saying the same, and no `.pyr` that a layer needs is removed |
| `LayerRuns.ReloadLoadsIff` | rok4server/Rok4Api.cpp:374-462 | on a current server a reload makes the layers of a full load if and only if the list of styles of each copied layer names the same styles on the new registries |
| `LayerRuns.CopyIsReadIff` | rok4server/Layer.cpp:100-159 | a copied layer is the layer its files describe if and only if the old one said what they say |
| `LayerRuns.BuildLayersList` | rok4server/ConfLoader.cpp:210-252 | the full load of the layers, whatever the order of the listing: under each identifier the layer its files describe, if they describe one; an empty directory is accepted |
| `ServerReload.ReloadServer` | rok4server/Rok4Api.cpp:161-469 | the whole reload on unchanged directories: it fails when a directory has no file; otherwise the TMS and style registries are the patched ones of `Reload`, in new objects only, the layers are those of the layers pass, every layer points only to registered objects, so that each TMS, TileMatrix and style it reaches is new, and the new server can be reloaded again if and only if no copied layer has lost its first style |
| `ServerReload.RefreshTms` | rok4server/Rok4Api.cpp:223-280 | the TMS pass on the registry of objects: it refines the patched registry of what the files say, and all its objects are new |
| `ServerReload.RefreshStyles` | rok4server/Rok4Api.cpp:298-355 | the same for styles |
| `ServerReload.CopyTms` | rok4server/Rok4Api.cpp:223-231 | the same identifiers with the same geometry, in new TMS and TileMatrices |
| `ServerReload.CopyStyles` | rok4server/Rok4Api.cpp:298-306 | the same identifiers with the same public identifiers, in new styles |
| `ServerReload.PatchTms` | rok4server/Rok4Api.cpp:238-266 | one TMS file: its entry, made of new objects, is what the patched registry wants, every other entry is as before |
| `ServerReload.PointedToIsRegistered` | rok4server/Level.cpp:107-114 | what a closed layer points to is registered |
| `TileWindow.QuotientIsFloorIffExact` | rok4server/Level.cpp:312-317 | the quotient helper is the floor division if and only if its argument is not a negative multiple, where it is one too low |
| `TileWindow.RemainderIsModulo` | rok4server/Level.cpp:319-324 | the remainder helper is the modulus on all arguments |
| `TileWindow.AxisIsPixelExactIff` | rok4server/Level.cpp:326-371 | on an accepted axis the cropped tiles have positive sizes and meet end to end from the first to the last pixel of the window, if and only if the window is not inverted and neither end is a negative multiple |
| `TileWindow.PositiveSizesIffNotInverted` | rok4server/Level.cpp:326-333 | an inverted window inside one tile is accepted: the sizes are positive if and only if the window is not inverted |
| `TileWindow.AxisShowsPixel` | rok4server/Level.cpp:354-374 | position i of the composed axis shows pixel lo + i at its quotient and remainder, and the sizes add up to hi - lo |
| `TileWindow.WindowIsPixelExact` | rok4server/Level.cpp:326-376 | the composed image shows at (i, j) the pixel (xmin + i, ymin + j) at its tile and place in the tile; widths add up to xmax - xmin in every row and heights to ymax - ymin |
| `TileWindow.CropBoxIsItsPixels` | rok4server/Level.cpp:508-513 | the box given to a cropped tile is the box of the pixels it shows |
| `TileWindow.CropBoxesAbut` | rok4server/Level.cpp:508-513 | boxes of neighbours share their edge and the outer edges are those of the box that `getbbox` gives to the whole image, Level.cpp line 251 |
| `TileWindow.TilesOfAxis` | rok4server/Level.cpp:326-338 | the error codes of one axis for every limit, where the number of tiles is compared as an unsigned number |
| `TileWindow.NegativeIsRefusedIff` | rok4server/Level.cpp:329-329 | so every negative number of tiles is refused if and only if the limit, read as a signed number into an unsigned one, is at most 2^31 |
| `TileWindow.GetWindow` | rok4server/Level.cpp:326-376 | for every limit: an image is made exactly when 1 <= nbx < maxTileX and 1 <= nby < maxTileY, with the exact error codes otherwise and arrays of negative length exactly when a negative number passes the comparison; the rows hold the cropped tiles in order |
| `SlabAddress.RangeTestIsExact` | rok4server/Rok4Server.cpp:674-678 | the comparison of `int` indices with `uint32_t` limits accepts exactly the indices within the limits if and only if the upper limit is below 2^31 or the range is empty |
| `SlabAddress.PlacesAreExactIff` | rok4server/Level.cpp:443-443 | the place of a tile in its slab, computed in 32 bits, is exact for every tile with `int` indices if and only if the last such place is below 2^31 |
| `SlabAddress.AcceptedTileHasAddress` | rok4server/Level.cpp:384-387 | a tile that the range test accepts has an address if and only if its indices are not negative, which they are not when the limits are below 2^31; it then lies within the limits |
| `SlabAddress.AddressReadsBack` | rok4server/Level.cpp:382-394 | then every tile has an address, with 0 <= n < tilesPerWidth * tilesPerHeight, and the address gives the tile back |
| `SlabAddress.TileReadsBack` | rok4server/Level.cpp:439-448 | and every address of a tile with `int` indices is the address of that tile, so addressing is a bijection |
| `SlabAddress.PlacesGoByRow` | rok4server/Level.cpp:382-394 | a slab holds the tiles from its first column and row on; the next tile of a row has the next place, the tile below the place `tilesPerWidth` further |
| `SlabAddress.IndexIsPartitioned` | rok4server/Level.cpp:439-448 | the 4-byte offset and size entries of all n are disjoint and fill exactly the bytes from the header to the tile data, where the header that is read ends |
| `SlabAddress.OffsetsAreExactIffIndexFits` | rok4server/Level.cpp:445-448 | offsets are 2048 + 4n and sizes 2048 + 4 * count + 4n, without wrapping as `uint32_t`, if and only if the whole index ends below 2^32 |
| `SlabAddress.SlabBoxIsUnionOfTiles` | rok4server/Level.cpp:534-561 | the slab box is exactly the union of the boxes of the tiles that share the slab |
| `SlabAddress.LimitsBoxIsUnionOfTiles` | rok4server/Level.cpp:606-632 | the box of the limits is exactly the union of the boxes of the tiles within the limits |
| `SlabAddress.TilesCoverAxis` | rok4server/Level.cpp:565-586 | tiles cover an axis, each point once |
| `CropPadding.WindowKeepsResolution` | rok4server/Pyramid.cpp:268-295 | the adjusted box over the adjusted size is exactly the resolution of the request; the box starts one pixel before the crop and ends half a pixel to one and a half after it; the size is the exact one rounded, plus two |
| `CropPadding.PadCrop` | rok4server/Pyramid.cpp:262-310 | which crops are left out, and for the others, on both axes: one pixel of margin on the low side, half a pixel to one and a half on the high side |
| `CropPadding.AdjustAxis` | rok4server/Pyramid.cpp:268-300 | the same for one axis, and which parts count as negligible |
| `CropPadding.LroundIsNearest` | rok4server/Pyramid.cpp:270-271 | rounding is off by at most one half, and a half goes away from zero |
| `CropPadding.NegligibleIs` | rok4server/Pyramid.cpp:303-303 | a part is left out exactly when it rounds to no pixel and the inverse of its ratio is above five |
| `LevelChoice.BestLevel` | rok4server/Pyramid.cpp:162-193 | the answer is the identifier of a level whose compared ratio is an optimum, always when nothing is made on demand; on demand it is not empty if and only if some ratio lies in 0.8 to 1.8, and then it is that level |
| `LevelChoice.BestMeans` | rok4server/Pyramid.cpp:174-177 | an optimum is the smallest of the ratios from 0.8 on when there is one, else the largest of all |
| `LevelChoice.LevelOrderDoesNotMatter` | rok4server/Pyramid.cpp:169-181 | compared with one resolution, the chosen level has the same ratio in whatever order the pyramid lists its levels |
| `LevelChoice.OnDemandFindsWhatExists` | rok4server/Pyramid.cpp:183-189 | the optimum is within 0.8 to 1.8 if and only if some ratio is |
| `LevelChoice.AlwaysTheBestIffSquare` | rok4server/Pyramid.cpp:166-172 | the first level is compared with the x resolution alone: the scan returns an optimum of the true ratios for every pyramid if and only if the x and y resolutions are equal |
| `LevelChoice.BuildBasedPyramid` | rok4server/ConfLoader.cpp:345-386 | a level is found if and only if some ratio within 0.8 to 1.8 belongs to a level of the pyramid; exactly the level of the first such ratio is left, and highest, lowest and unique level are that level |
| `LevelChoice.BothFindOrNeither` | rok4server/ConfLoader.cpp:354-363 | on the same ratios this finds a level if and only if the on-demand form of `best_level` does |
| `LevelChoice.Pyramid.constructor` | rok4server/Pyramid.cpp:87-102 | highest and lowest level have the largest and smallest resolution; resolutions at or below DBL_MIN are never the highest |
| `LevelChoice.Pyramid.KeepOnly` | rok4server/ConfLoader.cpp:372-384 | after removing the levels one by one exactly the given one is left, as highest and lowest |
| `LevelChoice.Pyramid.SetUniqueLevel` | rok4server/Pyramid.cpp:465-480 | highest and lowest level are the named one, or unset when it is not there |
| `UrlDecode.DecodeInPlace` | rok4server/Request.cpp:122-154 | decoding into the buffer that is read gives the left-to-right decoding of its text; nothing behind the terminator is touched |
| `UrlDecode.DecodeLoop` | rok4server/Request.cpp:122-154 | the write index never passes the read index and no read passes the terminator |
| `UrlDecode.Hex2IntReadsDigits` | rok4server/Request.cpp:108-120 | the byte arithmetic reads exactly the hexadecimal digits of both cases |
| `UrlDecode.DecodeHasNoNul` | rok4server/Request.cpp:127-148 | no NUL is produced before the end |
| `UrlDecode.DecodeInvertsEncoding` | rok4server/Request.cpp:122-154 | a text percent-encoded in any way (section 2.1 of RFC 3986, with "+" for space) comes back if and only if no control character was escaped in it |
| `UrlDecode.DecodePrint` | rok4server/Request.cpp:122-154 | otherwise it comes back with "_" for each of those, byte by byte |
| `UrlDecode.EveryTextIsEncoded` | rok4server/Request.cpp:127-148 | every text is an encoded one, a "%" without two hexadecimal digits standing for itself, so this settles decoding for all texts |
| `KeyValue.Tokenize` | rok4server/UtilsWMS.cpp:289-300 | the tokenizer that cuts the buffer in place ends on every text and yields the parsed map; with ":" and ";" and lower-cased values |
| `KeyValue.ReadQuery` | rok4server/Request.cpp:774-786 | the query is first decoded in place and then cut with "=" and "&" |
| `KeyValue.FirstOccurrenceWins` | rok4server/Request.cpp:776-786 | the keys are exactly the lower-cased keys of the segments between separators, each cut at its first "=", and the first occurrence wins |
| `KeyValue.NoCapitals` | rok4server/Request.cpp:784-784 | no key contains a byte from 0x41 to 0x5A, and with lower-cased values no value does |
| `KeyValue.LowerIsLowerCase` | rok4server/Request.cpp:784-784 | lower-casing gives the one text without such bytes whose other bytes are the same or 0x20 above |
| `KeyValue.PrintedPairsReadBack` | rok4server/Request.cpp:776-786 | printed pairs, their keys free of separators and in any mix of cases, arrive under the distinct lower-case keys if and only if no value contains the separator |
| `KeyValue.QueryArrives` | rok4server/Request.cpp:774-786 | the same for parameters percent-encoded in any way, even if "&" is escaped in a value, since the text is decoded before it is cut |
| `KeyValue.CutPair` | rok4server/Request.cpp:777-782 | the NULs put for one pair end its key and its value at the right places and leave the rest of the text alone |
| `Templates.GluedPiecesAreSubstitution` | rok4server/UtilsTMS.cpp:377-380 | gluing the pieces of a template with a text is the template with every leftmost tag replaced by it; there is one piece more than tags |
| `Templates.PiecesLoseNothing` | rok4server/UtilsTMS.cpp:443-453 | gluing with the tag itself gives the template back |
| `Templates.PiecesAreTagFree` | rok4server/UtilsTMS.cpp:443-453 | no piece contains the tag |
| `Templates.CutFrom` | rok4server/UtilsWMTS.cpp:597-607 | the `find`/`substr` loop computes these pieces |
| `Templates.CapabilitiesCache.TmsGetCapabilities` | rok4server/UtilsTMS.cpp:362-384 | the response is the template with every tag replaced by scheme, host and path as asked, without a final slash |
| `Templates.CapabilitiesCache.WmtsGetCapabilities` | rok4server/UtilsWMTS.cpp:626-634 | the response is the template with every tag replaced by scheme, host, path and "?" |
| `Templates.CapabilitiesCache.BuildWms` | rok4server/UtilsWMS.cpp:996-1010 | the fragments of a version: what is before the host tag, then the pieces of the rest |
| `Templates.CapabilitiesCache.WmsGetCapabilities` | rok4server/UtilsWMS.cpp:1502-1510 | the response is the template with the first host tag replaced by scheme and host, and every later path tag by scheme, host, path and "?" |
| `Templates.WmsIsSubstitutionOfBoth` | rok4server/UtilsWMS.cpp:996-1010 | when the host tag occurs once and no path tag precedes it, this is the replacement of both tags in one pass |
| `Routing.RecognisedIsHandled` | rok4server/Rok4Server.cpp:1404-1470 | every recognised request comes with a service that handles it; the service is TMS if and only if there are no parameters, and then a request is always determined |
| `Routing.HandledOccurs` | rok4server/Request.cpp:630-762 | every request that a service handles can be made |
| `Routing.ClassifiedService` | rok4server/Request.cpp:630-662 | the service of every request, on the texts in any mix of cases: WMS if and only if it is named, or none is named and a map is asked for; WMTS if and only if it is named; TMS if and only if there are no parameters |
| `Routing.ClassifiedRequest` | rok4server/Request.cpp:712-762 | GetMap and GetTile if and only if the texts name them and their service; no request if and only if the text is missing or empty |
| `Routing.ClassifiedSharedRequest` | rok4server/Request.cpp:712-762 | GetFeatureInfo and GetVersion of WMS and WMTS in the same way |
| `Routing.ClassifiedCapabilities` | rok4server/Request.cpp:712-762 | GetCapabilities of WMS and WMTS under both its names |
| `Routing.ClassifiedPath` | rok4server/Request.cpp:664-708 | the request of every TMS path, by what follows its last "1.0.0" |
| `Routing.ClassifiedPathIsComplete` | rok4server/UtilsTMS.cpp:66-131 | a path classified as a tile is never refused for its depth by `getTileParamTMS`, and one classified as a layer or its metadata never by `getLayerParamTMS` |
| `Routing.Request.DetermineServiceAndRequest` | rok4server/Request.cpp:630-762 | the branches on the object set service and request as classified, which the five rows above describe on the texts |
| `Routing.GetTileParamTMS` | rok4server/UtilsTMS.cpp:62-162 | every access to the path is within bounds; the exact error or the tile, with its format and style, for every path |
| `Routing.TileAnswerIs` | rok4server/UtilsTMS.cpp:92-160 | for four parts after the last version: which of the errors is given, the first that applies, and that a tile is answered exactly for an offered layer, a known level, two numbers and the extension of the layer |
| `Routing.TileOfSuffix` | rok4server/UtilsTMS.cpp:79-95 | for fewer parts, which one is reported as missing |
| `Routing.PathIsRefusedIff` | rok4server/UtilsTMS.cpp:79-85 | a version is reported as missing exactly when no part is "1.0.0", a layer exactly when the last part is, for tiles and for layers |
| `Routing.OfferedMeans` | rok4server/UtilsTMS.cpp:97-107 | a layer that is unknown, not authorised for TMS or has a forbidden character in its name is refused, and no other |
| `Routing.NumberIsRead` | rok4server/UtilsTMS.cpp:125-140 | the `%d` conversion reads over leading blanks and zeros, takes a sign, and ignores what follows the digits |
| `Routing.NothingIsRead` | rok4server/UtilsTMS.cpp:125-140 | and reads nothing from a text without a digit there |
| `Routing.TileHasStyleIff` | rok4server/UtilsTMS.cpp:142-143 | the default style is looked up by its public identifier among internal names: an answered tile has a style if and only if some style is registered under that name, and the default style itself if and only if both its names agree |
| `Routing.GetLayerParamTMS` | rok4server/UtilsTMS.cpp:165-218 | the exact error or the layer after the last version, which is then an offered one, with the URL up to the first version |
| `Routing.ReadPath` | rok4server/Request.cpp:666-678 | the `getline` loop gives the fields of the path and the last place of the version |
| `Routing.TileLinkIsTile` | rok4server/Request.cpp:701-704 | under any path, the link to a tile is classified as a tile if and only if neither layer nor level is named "1.0.0" |
| `Routing.TileLinkReadsBack` | rok4server/UtilsTMS.cpp:93-150 | and is decoded to the same layer, level, column and row, with the format of the layer |
| `Routing.AdvertisedTilesAreServed` | rok4server/UtilsTMS.cpp:168-262 | so the links in the description of a layer, made with the URL of `getLayerParamTMS`, are requests for tiles of that layer, unless the level is named "1.0.0" |
| `Routing.AdvertisedLayersAreServed` | rok4server/UtilsTMS.cpp:362-384 | the address of the TMS capabilities followed by the name of a layer is a request for that layer, unless it is named "1.0.0" |
| `Routing.UrlIsWhereItWasAsked` | rok4server/UtilsTMS.cpp:177-187 | first and last version, from which URL and layer are taken, are the same if and only if the path has one version |
| `Routing.DecimalReadsBack` | rok4server/UtilsTMS.cpp:125-140 | a decimal number is read back by the `%d` conversion |
| `FieldLists.SplitFields` | rok4server/Rok4Server.h:581-589 | the `getline` loop computes the split |
| `FieldLists.SplitDropsLastEmpty` | rok4server/Rok4Server.h:581-589 | it differs from keeping all fields by exactly one trailing empty field |
| `FieldLists.SplitJoin` | rok4server/Rok4Server.h:581-589 | a joined list is split into itself if and only if no field contains the separator and the last one is not empty |
| `FieldLists.JoinAllFields` | rok4server/Rok4Server.h:581-589 | joining all fields of a text gives the text back |
| `MapStyles.SelectLayers` | rok4server/UtilsWMS.cpp:98-118 | success exactly when every name is a served layer and the limit is kept; the layers in order |
| `MapStyles.SelectStyles` | rok4server/UtilsWMS.cpp:232-267 | success exactly when there are as many names as layers and each layer has a style of the name given, or of its default when the name is empty, without a forbidden character; each layer then gets its first such style |
| `MapStyles.EmptyStylesNamesDefaults` | rok4server/UtilsWMS.cpp:236-247 | an empty STYLES names the defaults of the layers if and only if none contains a comma and the last one is not empty |
| `MapStyles.TrailingEmptyStyleIsLost` | rok4server/UtilsWMS.cpp:246-251 | a list that ends with an empty name is one style short |
| `MapStyles.StyleByIdentifier` | rok4server/Layer.cpp:197-204 | the first style with that identifier, or none if there is none |
| `NoData.ReadValues` | rok4server/PyramidXML.cpp:157-175 | the loop gives one value for each comma-separated field, an empty one being the default |
| `NoData.ParseNoData` | rok4server/PyramidXML.cpp:154-187 | one value for each field of the text, 255 for an empty one and no field without the element, completed with 255 up to one for each channel |
| `NoData.GetNoDataValues` | rok4server/PyramidXML.cpp:240-246 | every access is within bounds and the array holds the first values |
| `NoData.WrittenValuesReadBack` | rok4server/PyramidXML.cpp:157-175 | values written with commas are read back |

## Left out

- FastCGI, sending of responses, logging, web services and signal plumbing; only the ending of a child by SIGALRM is kept.
- Reprojection, CRS comparison, kernels, decoding, styling, merging and encoding of images: CRS and image content do not appear.
- The building of capabilities documents and the reading of XML: templates and parsed values are inputs.
- `LevelXML::calculateTileLimits`, whose sentinels keep its updates from firing, and the CRS check of `getMapParamWMS`, whose tests look inverted: no limits or validated CRS are claimed.
- The stepping of `cleanTMSs` and its peers with an erased iterator: the filter they intend is modelled. Freed and uninitialised memory does not appear, nor do threads that share a `ProcessFactory` without a lock.
- Levels with sources and storage contexts that cannot be had: copying such a level does not report its failure, because rok4server/Level.cpp:126 and rok4server/Level.cpp:169 compare instead of assigning.
- File names no longer than their extension, and the exact form of storage paths: names are taken without extension and distinct coordinates are taken to give distinct paths.
- Rounding of floating-point numbers: resolutions, boxes and ratios are real numbers, and a square root is a number whose square is the product.
- Blank lines in the pid file, for which `sscanf` reports an end of input and leaves the pid of the line before; a `stat` of the file that fails although it exists; permissions that somebody else changes.
- Numbers in a path that do not fit an `int`, and `atoi` itself: the `%d` conversion is modelled on unbounded numbers, `atoi` is a parameter.
- LayerGraph.CopyIsFullLoadIff: takes the limits of a level as given by its file; those that a full load would compute anew after a change of the TMS are not modelled, and the copy keeps the old ones.
- LayerGraph.BuildLayer: does not model titles, bounding boxes, CRS lists and the GetFeatureInfo settings of a layer, which the reload copies unchanged.
- ServerReload.ReloadServer: the directory paths stay the same; when one changes the server makes a full load of that kind, which is `Reload.BuildList`.
- TileWindow.WindowIsPixelExact: asks that the numbers of tiles fit an `int` with room to spare; beyond that the source converts a 64-bit quotient to 32 bits.
- SlabAddress.AddressReadsBack: asks that the last place fits an `int`, exactly when all places are exact (`SlabAddress.PlacesAreExactIff`).
- SlabAddress.IndexIsPartitioned: asks that the index fits below 2^32, exactly when the offsets do not wrap (`SlabAddress.OffsetsAreExactIffIndexFits`).
