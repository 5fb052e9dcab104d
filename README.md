# Order lifecycle, stock bookkeeping and slugs of the product API

This project models, in Dafny, the order subsystem of a small e-commerce API:

- the **order service**: creating an order against product stock, changing an
  order's status, cancelling an order within a day, and the read-only queries
  that project stored orders to their display form (`OrderDto`);
- the **order repository** as an in-memory order table with an identity
  counter, with its lookups, filters and writes;
- the **order entity** and its derived total;
- the **slug generator** `ToSlug` for product names, with its accent-removal
  loop.

Files and modules:

| file | module | models |
|---|---|---|
| `wrappers.dfy` | `Wrappers` | `Option` and `Result` |
| `entities.dfy` | `Entities` | `Order`, `OrderItem`, `Product`, `OrderStatus`, the order total |
| `repositories.dfy` | `Repositories` | class `OrderRepository` over a `seq<Order>` table |
| `stock_ledger.dfy` | `StockLedger` | `Reserve` and `Restock`: what the create and cancel loops compute on the product table |
| `services.dfy` | `Services` | class `OrderService` holding the product table and the repository |
| `extensions.dfy` | `Extensions` | `ToSlug` and `RemoveDiacritics` |

The order service is imperative: `CreateOrder` and `DeleteOrder` keep the
source's item loops, which mutate the product table in place. Each loop is
proved against a specification function (`Reserve`, `Restock`) whose properties
are lemmas. A transaction is modelled as all-or-nothing: on every error path the
product table and the order table are exactly what they were before the call.

Time is a whole number of seconds. A return is refused when more than
14 × 86400 seconds have passed since creation, and a cancellation when more than
24 × 3600 seconds have passed; exactly 14 days or 24 hours is still allowed.
Money is an integer number of the smallest currency unit. A failing store
write is a boolean parameter (`saveFails`, `conflict`).

The model follows the code, and it exposes these behaviours of the code:

- A status change is refused only for Delivered→Confirmed and for a
  Delivered→Returned that is late or holds a perishable product. When both
  apply, the perishable refusal is the one reported. Every other pair is
  accepted, including reversals such as Cancelled→Sent and a change to the
  same status, which also sets the update time.
- Cancellation does not look at the current status. Cancelling an order that is
  already Cancelled, within the window, gives its stock back a second time
  (`StockLedger.RestockTwice`).
- A line whose product no longer exists is skipped when stock is given back.
- A return gives no stock back.
- When the same product is requested twice, the second check is made against
  the stock left by the first. This is why stock never becomes negative
  (`StockLedger.ReserveKeepsCatalogValid`).

Where the program's own comments promise something its code does not do, the
model follows the code:

- OrderService.cs:169-173 suggests refusing every transition that is not
  listed, but the refusal message there is commented out. Every unlisted pair
  therefore passes.
- OrderService.cs:171 marks a same-status change as "no change". The code still
  goes on to OrderService.cs:182-183, which set the status and the update time
  to now.
- OrderService.cs:221-229 describe deleting the order, all commented out. The
  code instead sets the order to Cancelled (OrderService.cs:230-232).

## Model

| member | source | states |
|---|---|---|
| `Entities.NewOrder` | ProductApi/Entities/Order.cs:40-51 | a freshly built order has the given number, time and status, no lines, no update time, and total 0 |
| `Entities.TotalConcat` | ProductApi/Entities/Order.cs:51 | the total of two runs of lines is the sum of their totals |
| `Entities.TotalAppend` | ProductApi/Entities/Order.cs:51 | appending a line raises the total by exactly quantity × unit price of that line |
| `Entities.Total` | ProductApi/Entities/Order.cs:51 | the sum of quantity × unit price over the lines: 0 for no lines, never negative when every quantity is at least 1 and every price at least 0 |
| `Entities.Order.TotalAmount` | ProductApi/Entities/Order.cs:50-51 | the order total is 0 for an order without lines and never negative for valid lines |
| `Entities.TotalIgnoresBookkeeping` | ProductApi/Entities/Order.cs:35-51 | changing status, update time or order number leaves the total unchanged |
| `Repositories.Where` | ProductApi/Repositories/OrderRepository.cs:70-86 | a row is kept exactly when it is in the table and the test accepts it; the result is no longer than the table and keeps ids unique |
| `Repositories.FirstWithId` | ProductApi/Repositories/OrderRepository.cs:21 | a found row is in the table with the requested id; None means no row has that id |
| `Repositories.ReplaceById` | ProductApi/Repositories/OrderRepository.cs:45-49 | the written table has the same length and ids; rows with another id are kept; nothing but the order or an old row appears; unique ids stay unique; a lookup of the id then finds the order; a table without that id is unchanged |
| `Repositories.OrderRepository.GetById` | ProductApi/Repositories/OrderRepository.cs:16-22 | returns the one stored order with that id, and None exactly when no stored order has it |
| `Repositories.OrderRepository.GetOrdersByStatus` | ProductApi/Repositories/OrderRepository.cs:70-77 | an order is returned exactly when it is stored and has the given status |
| `Repositories.OrderRepository.GetDeliveredOrdersInPeriod` | ProductApi/Repositories/OrderRepository.cs:79-86 | an order is returned exactly when it is stored, Delivered, and created within [from, to] inclusive; nothing when from > to |
| `Repositories.OrderRepository.Add` | ProductApi/Repositories/OrderRepository.cs:32-37 | appends the order under the next identity value, returns it with that id, leaves other rows alone, and a lookup of that id then finds it |
| `Repositories.OrderRepository.Update` | ProductApi/Repositories/OrderRepository.cs:39-56 | fails with the table unchanged on a concurrency conflict or when no row has the id; otherwise overwrites that row, returns the order, and a lookup then finds it |
| `Repositories.OrderRepository.Delete` | ProductApi/Repositories/OrderRepository.cs:58-68 | returns false with the table unchanged for an absent id; otherwise removes exactly the row with that id and keeps every other row |
| `StockLedger.ReserveFrom` | ProductApi/Services/OrderService.cs:66-95 | a successful pass keeps the product ids and adds one line per request to the lines already built; a rejection needs at least one request |
| `StockLedger.Reserve` | ProductApi/Services/OrderService.cs:66-95 | a successful reservation yields one line per request, and giving those lines back restores the product table exactly; no requests reserve nothing |
| `StockLedger.ReserveStock` | ProductApi/Services/OrderService.cs:75-94 | a successful reservation changes only stock, lowering each product's stock by the total quantity requested for it |
| `StockLedger.ReserveItems` | ProductApi/Services/OrderService.cs:81-86 | a successful reservation yields one line per request, in request order, with the requested product and quantity and the product's current price |
| `StockLedger.ReserveKeepsCatalogValid` | ProductApi/Services/OrderService.cs:75-89 | because each check uses the stock left so far, no stock becomes negative |
| `StockLedger.ReserveSucceedsIff` | ProductApi/Services/OrderService.cs:66-95 | the line-by-line checks pass exactly when every requested product exists and no product is asked for more than its stock in total |
| `StockLedger.ReserveRejection` | ProductApi/Services/OrderService.cs:68-79 | a rejection names a missing requested product, or a request whose quantity exceeds the stock left by earlier requests, carrying that stock and the quantity |
| `StockLedger.Release` | ProductApi/Services/OrderService.cs:214-219 | one line given back: no product appears or disappears, only that line's product changes, and its stock rises by the line's quantity |
| `StockLedger.Restock` | ProductApi/Services/OrderService.cs:212-220 | giving lines back keeps the product ids and every non-stock field, and raises each product's stock by its total quantity over the lines; a missing product is skipped |
| `StockLedger.ReserveThenRestock` | ProductApi/Services/OrderService.cs:212-220 | giving back the lines of a successful reservation restores the product table exactly |
| `StockLedger.RestockKeepsCatalogValid` | ProductApi/Services/OrderService.cs:212-220 | giving back lines with positive quantities keeps every stock non-negative |
| `StockLedger.RestockTwice` | ProductApi/Services/OrderService.cs:193-220 | giving the same lines back twice raises each stock by twice their quantity |
| `Services.HasPerishable` | ProductApi/Services/OrderService.cs:162 | false for an order without lines, when no product is perishable, and when no line's product exists |
| `Services.MapAll` | ProductApi/Services/OrderService.cs:50 | one display form per order, in order, keeping id, status and creation time; every order's display form appears and nothing else does |
| `Services.MapItemsTotal` | ProductApi/Services/OrderService.cs:29-36 | the displayed lines sum to the order total |
| `Services.MapOrderToDto` | ProductApi/Services/OrderService.cs:21-39 | the display form keeps id, number, times, status and every line in order, names a missing product "N/A", and its total is both the order total and the sum of the displayed lines |
| `Services.StatusChangeError` | ProductApi/Services/OrderService.cs:130-175 | a change is refused exactly for Delivered→Confirmed, or Delivered→Returned when perishable or past 14 days; perishable wins over the window; every other pair passes |
| `Services.OrderService.GetOrderById` | ProductApi/Services/OrderService.cs:41-45 | None exactly when no stored order has the id; otherwise the display form of the stored order with that id |
| `Services.OrderService.GetAllOrders` | ProductApi/Services/OrderService.cs:47-51 | one display form per stored order, and nothing else |
| `Services.OrderService.GetOrdersByStatus` | ProductApi/Services/OrderService.cs:246-250 | every stored order with the status appears in display form, and only such orders |
| `Services.OrderService.GetDeliveredOrdersReport` | ProductApi/Services/OrderService.cs:252-256 | every Delivered order created within [from, to] appears in display form, only such orders, nothing when from > to |
| `Services.OrderService.CreateOrder` | ProductApi/Services/OrderService.cs:53-116 | missing product, short stock, empty request or failed write leave both tables unchanged, with the matching error; on success each stock drops by the quantity requested for it, and one Confirmed order created now, with one line per request at the current price, is appended under the next id |
| `Services.OrderService.UpdateOrderStatus` | ProductApi/Services/OrderService.cs:118-191 | never touches stock; not found, a refused change or a write conflict leave the table unchanged with the matching error; otherwise the stored order gets the new status and update time now |
| `Services.OrderService.ReturnStock` | ProductApi/Services/OrderService.cs:212-220 | the loop leaves the product table equal to `Restock` of the old table over the lines |
| `Services.OrderService.DeleteOrder` | ProductApi/Services/OrderService.cs:193-244 | not found, past 24 hours or a failed write change nothing; otherwise every existing product gets its quantity back and the order becomes Cancelled, updated now, whatever its status was |
| `Extensions.IsWhiteSpace` | ProductApi/Extensions/StringExtensions.cs:33 | space, tab, line feed and carriage return are white space, and no white-space character can appear in a slug |
| `Extensions.IsNullOrWhiteSpace` | ProductApi/Extensions/StringExtensions.cs:21 | the empty string is blank, and a blank string holds no slug character |
| `Extensions.ToLowerInvariant` | ProductApi/Extensions/StringExtensions.cs:27 | same length, no upper-case ASCII letter left, every other character unchanged, and a position holds a slug letter or digit exactly when the input held an ASCII letter or digit there |
| `Extensions.Filter` | ProductApi/Extensions/StringExtensions.cs:36 | keeps only characters the test accepts, never lengthens, and returns a string the test wholly accepts unchanged |
| `Extensions.Squash` | ProductApi/Extensions/StringExtensions.cs:33-39 | never lengthens, and is empty exactly when the input is; no run character survives except the dash each run becomes; an input starting outside a run keeps its first character |
| `Extensions.RemoveDiacritics` | ProductApi/Extensions/StringExtensions.cs:50-65 | the loop keeps exactly, and in order, the characters that are not combining marks |
| `Extensions.DropWhile` | ProductApi/Extensions/StringExtensions.cs:42 | removes the longest prefix whose characters satisfy the test: the rest is a suffix that does not start with such a character |
| `Extensions.TrimEnd` | ProductApi/Extensions/StringExtensions.cs:42 | removes the longest suffix of dashes: the rest is a prefix that does not end with a dash |
| `Extensions.SquashDashes` | ProductApi/Extensions/StringExtensions.cs:39 | after collapsing dash runs no two dashes are adjacent |
| `Extensions.FinishIsSlug` | ProductApi/Extensions/StringExtensions.cs:36-42 | filtering, collapsing and trimming always produce the slug grammar |
| `Extensions.ToSlug` | ProductApi/Extensions/StringExtensions.cs:19-45 | blank input gives ""; the output uses only a-z, 0-9 and dash, has no two adjacent dashes, and neither starts nor ends with a dash |
| `Extensions.SlugFixpoint` | ProductApi/Extensions/StringExtensions.cs:19-45 | a string already in the slug grammar is its own slug |
| `Extensions.ToSlugIdempotent` | ProductApi/Extensions/StringExtensions.cs:19-45 | making a slug of a slug returns it unchanged |
| `Extensions.WordsJoinedByDash` | ProductApi/Extensions/StringExtensions.cs:27-39 | two ASCII words separated by any run of white space become the two lower-cased words joined by exactly one dash |
| `Extensions.ToSlugKeepsWords` | ProductApi/Extensions/StringExtensions.cs:27-42 | for an ASCII input, the letters and digits of the slug are exactly the lower-cased letters and digits of the input, in order |
| `Extensions.SlugEmptyIff` | ProductApi/Extensions/StringExtensions.cs:19-45 | for an ASCII input, the slug is empty exactly when the input has no letter or digit |

## Left out

- The HTTP controllers, dependency injection and start-up code are not part of this model.
- The object-relational mapper is not modelled: the database context, change tracking, `Include` and explicit transactions. Tables are values, and a transaction is the all-or-nothing behaviour described above.
- `async`/`Task` and concurrent requests are not modelled. Every operation runs alone.
- The clock and `Guid.NewGuid()` are not modelled. `now` and the order number are parameters, so the `CMD-<date>-<6 chars>` format of the number is not modelled.
- Error messages are replaced by the `ServiceError` and `Rejection` constructors. Rejections carry the product id, or the product name with the available and requested quantities, that the messages print.
- A failed store write is a boolean parameter. In `CreateOrder` one flag covers both writes (the insert and the save). `DeleteOrder` ignores the result of its status write, but the following save then fails on the same row. The flag therefore models that path as a rolled-back cancel that reports `CancelFailed`.
- The stock loop for Confirmed→Sent checks nothing and changes nothing, so it is not modelled.
- Prices are integers. `decimal` scale and overflow are not modelled, and neither is `int` overflow of stock or quantity.
- `Services.OrderService.CreateOrder` requires every requested quantity to be at least 1. The request DTO's range annotation rejects anything else before the service runs. Without it, a negative quantity could raise stock at creation and lower it below zero at cancellation.
- Line ids, the order back-reference of a line, and the product's slug, description and other catalogue fields are not used by the service and are left out. The perishable flag is a field of `Product`.
- The repository's `GetAllAsync` is read as the order table itself in `Services.OrderService.GetAllOrders`.
- `Extensions.ToLowerInvariant`: lower-casing covers the ASCII letters only. The runtime's `ToLowerInvariant` also lower-cases other characters, and a few of them become ASCII letters (the Kelvin sign U+212A becomes `k`). The model keeps every non-ASCII character as it is, so the later filter drops those too.
- `Extensions.RemoveDiacritics`: only the combining marks U+0300..U+036F are dropped. The canonical decomposition before the loop and the recomposition after it are not modelled, so an accented letter written as one precomposed character is dropped by the filter rather than reduced to its base letter.
- `Extensions.ToSlugKeepsWords` is stated for ASCII input only. On other input the program can keep a letter that the model drops: canonical decomposition turns a precomposed `é` into `e` followed by a mark, and lower-casing turns the Kelvin sign into `k`.
- `Extensions.SlugEmptyIff` is stated for ASCII input only, for the same reason: the program's slug of `"é"` is `"e"`, while the model's is empty.
- `Extensions.IsWhiteSpace` lists the white-space characters of the .NET runtime and treats the regular expression `\s` as the same set.
