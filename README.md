# Pixel buy page: selection model

A Dafny model of the buy page of a pixel-selling site (`src/components/BuyMap.tsx`).
The page shows a 2000 × 2000 canvas divided into 200 × 200 cells of 10 units each.
Sold cells are painted red and the cells the user picks are painted blue.
A click on the map toggles a cell in or out of the selection, under two rules:
- a sold cell cannot be picked;
- a new cell must share a side with a cell already picked, unless nothing is picked yet.

"Buy Now" opens a confirmation dialog when the selection has the required size.
"Confirm" sends the selection as a list of `{x: col, y: row}` coordinates and marks a purchase in flight.

Modules:
- `Grid`: cells, the `(x, y)` form used by the sold list and the request, rook adjacency, and the pointer-to-cell mapping.
- `Overlay`: the painting as a list of square fills applied in order, compared with a per-cell colour.
- `Purchase`: the request built on confirmation, and its inverse.
- `Selection`: the searches the click handler uses (`findIndex`, `some`, `filter`) and the click transition `Step`, with its properties.
- `Connectivity`: walks through adjacent selected cells, and why insertion-only histories stay connected.
- `BuyPage`: the class `BuyPageState` holding the component's state, with one method per event handler.
- `Wrappers`: `Option`.

Some behaviours one might expect of such a page do not hold in its code, and the model follows the code:
- A successful purchase does not clear the selection. It only re-enables "Buy Now"; navigation away is a side effect.
- Clicking a selected cell twice does not always restore the selection. The second click puts the cell back only when it is unsold and the rest of the selection is empty or touches it. It is appended at the end, so the cells match but their order may not. See `Selection.ToggleTwice` and `Selection.ToggleTwiceMayRefuse`.
- The sold list is replaced whenever the query yields a value, including an empty list, which is truthy in JavaScript. Only an absent result is ignored.
- A selection is not re-checked when the sold list changes. The "no sold cell selected" property therefore holds only while the sold list is fixed (`Selection.StepKeepsNoneSold`, `Connectivity.RunKeepsInvariants`).
- Cells beyond the 200 × 200 grid are not rejected by the page; the purchase call rejects them (`Grid.PointerInGrid`).

The class invariant `Valid()` ties the dialog to the "Buy Now" check. While the dialog shows, nothing is in flight and the selection is non-empty and of the fixed quantity. The dialog's overlay (`fixed inset-0`, line 22) covers the whole page, so map clicks and "Clear" do not reach the page while it shows. A second purchase can therefore never start while one is in flight.

## Model

| member | source | states |
|---|---|---|
| `Grid.IsAdjacent` | src/components/BuyMap.tsx:97-101 | the adjacency test: column difference 1 and row difference 0, or the reverse; its meaning is given by `Grid.AdjacentIffDistanceOne`, `Grid.AdjacentIffNeighbour` and `Grid.AdjacentSymmetricIrreflexive` |
| `Grid.PointerToCell` | src/components/BuyMap.tsx:113-114 | the cell under an offset has non-negative indices, and the offset lies in that cell's 10 × 10 block; `Grid.PointerToCellBlock` gives the converse |
| `Grid.AdjacentIffDistanceOne` | src/components/BuyMap.tsx:97-101 | two cells are adjacent exactly when their Manhattan distance is 1, and then exactly one axis is unchanged |
| `Grid.AdjacentIffNeighbour` | src/components/BuyMap.tsx:97-101 | adjacency agrees with the explicit set of the four rook neighbours |
| `Grid.AdjacentSymmetricIrreflexive` | src/components/BuyMap.tsx:97-101 | adjacency is symmetric, and no cell is adjacent to itself |
| `Grid.PointerToCellBlock` | src/components/BuyMap.tsx:113-114 | an offset maps to cell (r, c) exactly when it lies in [10c, 10c+10) × [10r, 10r+10); mapped indices are never negative |
| `Grid.BlockMapsToCell` | src/components/BuyMap.tsx:113-114 | every offset inside a cell's 10 × 10 block maps back to that cell |
| `Grid.PointerInGrid` | src/components/BuyMap.tsx:230-231 | the mapped column (row) is below 200 exactly when the offset is inside the 2000-unit canvas; nothing is clamped |
| `Overlay.SoldFills` | src/components/BuyMap.tsx:83-86 | one red fill per sold entry |
| `Overlay.SelectedFills` | src/components/BuyMap.tsx:88-91 | one blue fill per selected cell |
| `Overlay.Scene` | src/components/BuyMap.tsx:80-91 | the fills in painting order: one per sold entry, all red, then one per selected cell, all blue |
| `Overlay.ColorAt` | src/components/BuyMap.tsx:80-91 | a pixel that no fill covers keeps the background; otherwise it has the colour of the last fill covering it |
| `Overlay.CellColor` | src/components/BuyMap.tsx:80-91 | the per-cell reference colour (blue if selected, else red if sold, else background); `Overlay.SceneMatchesCellColor` proves the painted scene shows it at every pixel |
| `Overlay.ColorAtAppend` | src/components/BuyMap.tsx:81-91 | painting a second layer over a first: pixels the second layer covers take its colour, the rest keep the first layer's |
| `Overlay.CoversIffMapsTo` | src/components/BuyMap.tsx:85-90 | the square painted for a cell covers exactly the pixels a click maps to that cell |
| `Overlay.SoldLayer` | src/components/BuyMap.tsx:83-86 | the sold layer paints a pixel red exactly when its cell is in the sold list, as (x, y) = (col, row) |
| `Overlay.SelectedLayer` | src/components/BuyMap.tsx:88-91 | the selection layer paints a pixel blue exactly when its cell is selected |
| `Overlay.SceneMatchesCellColor` | src/components/BuyMap.tsx:80-91 | at every pixel, background then sold then selected gives the cell's colour: blue if selected, else red if sold, else background |
| `Purchase.FormatCoords` | src/components/BuyMap.tsx:157-160 | same length as the selection, and entry i is {x: col, y: row} of selected cell i |
| `Purchase.DecodeCoords` | src/components/BuyMap.tsx:157-160 | reading coordinates back gives cells with row = y and col = x, in order |
| `Purchase.FormatRequest` | src/components/BuyMap.tsx:157-161 | the request has one coordinate per selected cell; `Purchase.DecodeFormat` and `Purchase.FormatDecode` prove it is a bijection with its decoding |
| `Purchase.DecodeFormat` | src/components/BuyMap.tsx:157-161 | decoding the request reproduces the selection exactly, order included |
| `Purchase.FormatDecode` | src/components/BuyMap.tsx:157-161 | every request is the formatting of the selection it decodes to |
| `Selection.IndexOf` | src/components/BuyMap.tsx:116 | returns -1 exactly when the cell is not selected, and otherwise the position of its first occurrence |
| `Selection.IsSoldOut` | src/components/BuyMap.tsx:123 | true exactly when some sold entry has x = col and y = row of the cell |
| `Selection.AnyAdjacent` | src/components/BuyMap.tsx:130 | true exactly when some selected cell is adjacent to the clicked cell |
| `Selection.Without` | src/components/BuyMap.tsx:120 | drops the entry at one position: one shorter, the others in their order, and the multiset loses just that entry |
| `Selection.Step` | src/components/BuyMap.tsx:116-136 | transition table for a click: removal exactly when the cell is selected; refusal as sold exactly when it is unselected and sold; append at the end exactly when it is unselected, unsold, and the selection is empty or has an adjacent member; otherwise refusal with the selection unchanged |
| `Selection.StepKeepsNoDup` | src/components/BuyMap.tsx:116-136 | a click changes the length by exactly -1, 0 or +1 (removal, refusal, insertion), and a duplicate-free selection stays duplicate-free |
| `Selection.StepRemovesExactlyOne` | src/components/BuyMap.tsx:116-120 | clicking a selected cell removes exactly that one entry; the others keep their relative order |
| `Selection.StepKeepsNoneSold` | src/components/BuyMap.tsx:123-133 | with the sold list unchanged, an inserted cell is never sold, and a selection with no sold cell keeps none |
| `Selection.ToggleTwice` | src/components/BuyMap.tsx:116-136 | after removing a cell, clicking it again re-inserts it exactly when it is unsold and the rest is empty or adjacent; the same cells are then selected; otherwise it is refused |
| `Selection.ToggleTwiceMayRefuse` | src/components/BuyMap.tsx:130-136 | a concrete selection where the second click is refused as non-adjacent |
| `Selection.PickSequence` | src/components/BuyMap.tsx:116-136 | concrete clicks: two adjacent picks appended, a distant pick and a sold pick refused, a selected cell removed alone |
| `Connectivity.AppendKeepsGrown` | src/components/BuyMap.tsx:130-133 | appending a cell adjacent to a member, or to an empty selection, keeps every later entry adjacent to an earlier one |
| `Connectivity.StepKeepsGrown` | src/components/BuyMap.tsx:130-136 | a click that does not remove keeps every entry after the first adjacent to an earlier entry |
| `Connectivity.WalkFromFirst` | src/components/BuyMap.tsx:130-133 | in such a selection, a walk through adjacent selected cells joins the first cell to any other |
| `Connectivity.GrownIsConnected` | src/components/BuyMap.tsx:130-133 | such a selection is connected under rook adjacency |
| `Connectivity.RunKeepsInvariants` | src/components/BuyMap.tsx:116-136 | over any click history with a fixed sold list, no duplicates and no sold cells are preserved, and the length moves by at most one per click |
| `Connectivity.InsertionHistoryConnected` | src/components/BuyMap.tsx:130-136 | over any history without removals, a selection grown by adjacency stays so and is connected |
| `Connectivity.RemovalMayDisconnect` | src/components/BuyMap.tsx:116-120 | removing the middle cell of a connected strip of three is allowed and leaves a selection that is not connected |
| `BuyPage.BuyPageState.constructor` | src/components/BuyMap.tsx:39-43 | initial state: nothing selected or sold, map not loaded, nothing in flight, dialog closed |
| `BuyPage.BuyPageState.SetSold` | src/components/BuyMap.tsx:65-69 | the sold list is replaced wholesale when the query yields a value, and otherwise kept |
| `BuyPage.BuyPageState.MapLoaded` | src/components/BuyMap.tsx:93 | after the image is drawn, the map accepts clicks |
| `BuyPage.BuyPageState.HandleClick` | src/components/BuyMap.tsx:103-138 | a click before load, or while the dialog's full-page overlay (line 22) covers the canvas, is ignored and changes nothing; otherwise the outcome and new selection are those of `Step` on the cell under the pointer; the selection stays duplicate-free |
| `BuyPage.BuyPageState.BuyNowEnabled` | src/components/BuyMap.tsx:197 | "Buy Now" is enabled exactly when nothing is in flight and the selection is non-empty; `BuyPage.BuyPageState.BuyNowClick` states what a click does in each case |
| `BuyPage.BuyPageState.BuyNowClick` | src/components/BuyMap.tsx:139-147 | does nothing while busy or with an empty selection (the disabled button, line 197); refuses a size different from a fixed quantity; otherwise opens the dialog |
| `BuyPage.BuyPageState.CancelConfirm` | src/components/BuyMap.tsx:245 | cancel closes the dialog |
| `BuyPage.BuyPageState.ConfirmPurchase` | src/components/BuyMap.tsx:154-162 | callable only from the open dialog (lines 19, 246); no purchase was in flight before, and afterwards the dialog is closed and one is; the request is non-empty, has the fixed quantity when there is one, has one {x: col, y: row} entry per selected cell and decodes back to the selection |
| `BuyPage.BuyPageState.OnSuccess` | src/components/BuyMap.tsx:51-57 | success clears busy |
| `BuyPage.BuyPageState.OnError` | src/components/BuyMap.tsx:58-62 | failure clears busy |
| `BuyPage.BuyPageState.Clear` | src/components/BuyMap.tsx:149-152 | the selection becomes empty, unless the dialog's overlay covers the button |

## Left out

- The quantity and sold-list queries and the purchase mutation (lines 45-63) are remote calls. Their results are inputs: the quantity is a constructor argument and the sold list an argument of `SetSold`. The purchase outcome arrives as the `OnSuccess` and `OnError` events.
- The loading screen shown while the queries run (lines 184-190) is not modelled. Events are assumed to arrive once the page is interactive.
- Toasts, `router.push` and `setTimeout` (lines 53-56, 61, 126, 135, 142) are notifications and navigation. They appear only as outcome tags (`ClickOutcome`, `BuyNowOutcome`).
- Canvas drawing, image decoding and `getBoundingClientRect` (lines 72-94, 106-111) are browser I/O. Pointer offsets are non-negative integers relative to the canvas, so floating-point offsets are not modelled. The drawing is modelled by the pure `Overlay.Scene`.
- `BuyPage.BuyPageState.MapLoaded`: the source sets the flag in the image's load handler, which runs again after every redraw. The model has a single load event. An image that never loads simply never sends it.
- The PNG download (lines 164-183) is browser I/O and is not modelled.
- The dialog markup and the JSX (lines 13-34, 191-253) are presentation. The dialog is the boolean `confirmOpen`.
- `Grid.PointerInGrid`: the source measures a click from the canvas's border box (`getBoundingClientRect`, lines 109-111), and the canvas has a one-unit border (line 233). The model measures offsets from the content box, the origin the fills use. In the source every click is shifted by one unit: the last pixel column of a cell's painted block selects the next cell, and offsets 2000 and 2001 land outside the grid.
- `Overlay.CoversIffMapsTo`: states that the painted block and the clicked block coincide, which holds for content-box offsets only. The one-unit border shift of the source's click offsets is not modelled.
- `Overlay.SceneMatchesCellColor`: the background image is assumed to cover every pixel. The source draws it (line 81) without clearing the previous frame, so a transparent image would let earlier fills show through.
- `BuyPage.BuyPageState.Clear`: the source also reloads the page (line 151), which resets every piece of state. The model resets only the selection.
- React batches state updates asynchronously. Here each event is handled to completion before the next one.
- `src/pages/index.tsx` only composes layout components and holds no logic.
