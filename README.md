# Inventory page core: escaping, sorting, searching and add validation

This project models the client-side logic of the inventory page in
`js/app.js` and proves properties of it in Dafny. The page keeps two pieces of
module-level state. `products` is the list last received from the API.
`sortDirection` holds the next sort direction of each of the three columns:
name, date and quantity. Four parts of the page are modelled:

- `escapeHtml` replaces `& < > " '` by their HTML entities before a product
  name is put into a table row (module `Escape`).
- `sortTable(column)` sorts `products` in place with a per-column comparator
  in the column's current direction, then flips that direction (module
  `Ordering` for the comparator, the sort and the direction map; class
  `Table.ProductTable` for the state).
- `searchProducts` trims and lower-cases the search box text. An empty query
  shows every product. Any other query shows the products whose lower-cased
  name, lower-cased rendered date or quantity text contains it, in list
  order (module `Search`).
- `addProduct` refuses to send a product when the trimmed name or the date is
  empty, or when the quantity field does not parse to a positive integer
  (module `Validation`).

Browser functions are replaced by explicit definitions in module `Text`,
with the following behaviour:

- `trim` removes ASCII white space.
- `toLowerCase` lower-cases ASCII letters.
- `includes` is substring containment.
- `String(n)` writes the decimal digits of an integer.
- `parseInt(s, 10)` skips leading white space, reads an optional sign and
  then the longest run of digits. `NaN` is `None`.

Two more stand-ins live next to their users:

- `localeCompare` is lexicographic comparison of code points
  (`Ordering.LexCompare`).
- `new Date(d + 'T00:00:00').toLocaleDateString('pt-BR')` shows an ISO
  `yyyy-mm-dd` date as `dd/mm/yyyy`, or as `Invalid Date` for any other text
  (`Products.RenderDate`).

The date column compares ISO date strings lexicographically. For
well-formed `yyyy-mm-dd` dates this has the same sign as the difference of
the two `Date` values.

`Array.prototype.sort` is a library call. The model specifies it as
`Ordering.StableSort`, a stable insertion sort. `Array.prototype.sort` has
been stable since ECMAScript 2019, and the lemmas about `StableSort` state
what a stable sort promises. It returns a permutation in comparator order,
equal keys keep their relative order, and a comparator that always returns 0
changes nothing.

`addProduct` runs `parseInt` before its integer check, so `"2.5"` is
accepted as 2 and `"3 boxes"` as 3 (`Validation.ValidateAddTruncates`).

## Model

| member | source | states |
|---|---|---|
| Escape.EscapeHtmlIsWellEscaped | js/app.js:98-101 | The escaped text holds no `<`, `>`, `"` or `'`, and every `&` in it starts one of the five entities, so a name cannot inject markup into the row. |
| Escape.EntityIsWellEscaped | js/app.js:99 | Each entry of the replacement map, and every character left alone, is itself safe markup text. |
| Escape.EscapeHtmlConcat | js/app.js:100 | The global replace works character by character: escaping a concatenation concatenates the escapes. |
| Escape.Entity | js/app.js:99 | Each of the five special characters maps to an entity that starts with `&` and ends with `;`; every other character stands for itself. |
| Escape.EscapeHtmlAt | js/app.js:99-100 | Each character is replaced in place by its map entry, and nothing else moves. |
| Escape.EscapeHtmlPlain | js/app.js:100 | Text without any of the five characters is returned unchanged. |
| Escape.UnescapeEntity | js/app.js:99 | Decoding one map entry followed by more text gives back the character and leaves the rest to decode. |
| Escape.UnescapeEscapeHtml | js/app.js:98-101 | Round trip: decoding the five entities in escaped text returns the original text. |
| Escape.EscapeHtmlInjective | js/app.js:98-101 | Two different names never escape to the same text. |
| Ordering.LexCompare | js/app.js:62 | The stand-in for `localeCompare` returns -1, 0 or 1. |
| Ordering.LexCompareZero | js/app.js:62 | Two strings compare equal exactly when they are equal. |
| Ordering.LexCompareFlip | js/app.js:62 | Swapping the arguments negates the comparison. |
| Ordering.LexCompareTransitive | js/app.js:62 | The string order is transitive. |
| Ordering.CompareFlip | js/app.js:61-66 | The comparator in either direction is antisymmetric for every column. |
| Ordering.CompareTransitive | js/app.js:61-66 | The comparator in either direction is transitive for every column. |
| Ordering.CompareTies | js/app.js:61-66 | The comparator returns 0 exactly when the two products have the same key in the column; such products compare the same against any third. |
| Ordering.InsertPermutes | js/app.js:61 | Inserting into a list adds exactly that product. |
| Ordering.InsertOrdered | js/app.js:61 | Inserting into an ordered list keeps it ordered. |
| Ordering.StableSortPermutes | js/app.js:61-66 | The sorted list is a permutation of the list. |
| Ordering.StableSortOrdered | js/app.js:61-66 | Every earlier product compares at most 0 against every later one, in the current direction. |
| Ordering.TiesInsert | js/app.js:61 | Inserting a product puts it in front of the products with its key that were already there. |
| Ordering.StableSortIsStable | js/app.js:61-66 | Products with the same key keep their relative order. |
| Ordering.StableSortUnknownColumn | js/app.js:65 | For a column the comparator does not know, it returns 0 and the order is unchanged. |
| Ordering.OrderedByColumn | js/app.js:62-64 | What ordered means per column: names and ISO dates ascend or descend, and quantities are non-decreasing for direction 1 and non-increasing for -1. |
| Ordering.DirectionIsSign | js/app.js:60 | `sortDirection[column] \|\| 1` is always 1 or -1 for a direction map reachable by the page. |
| Ordering.InitialDirectionAscending | js/app.js:5 | Every column, including one not in the initial map, sorts ascending first. |
| Ordering.Toggled | js/app.js:67 | After a sort the column's direction is the opposite and no other column's direction changes. |
| Ordering.ToggledTwice | js/app.js:60-67 | Two sorts of the same column bring its direction back. |
| Table.ProductTable.constructor | js/app.js:4-5 | The page starts with no products and the initial direction map, in which every column's direction is 1. |
| Table.SortQuantityTwice | js/app.js:59-69 | On a freshly opened page, two sorts of the quantity column after the first load show the products by ascending, then by descending quantity, both times the same products. |
| Table.ProductTable.Direction | js/app.js:60 | The direction the next sort of a column uses is 1 or -1. |
| Table.ProductTable.Load | js/app.js:7-9 | Loading replaces the list and keeps the sort directions. |
| Table.ProductTable.SortTable | js/app.js:59-69 | The new list is the stable sort of the old one in the column's direction: a permutation, in comparator order, with equal keys kept in order, unchanged for an unknown column. The column's direction is flipped and the others are kept. |
| Table.ProductTable.SearchProducts | js/app.js:71-81 | The shown list is the search result; blank search text shows every product; only products are shown. The list itself is not changed. |
| Search.BlankQueryShowsAll | js/app.js:72-73 | A search box holding only white space shows every product, in order. |
| Search.QueryShowsMatches | js/app.js:72-74 | Any other text filters by the trimmed, lower-cased query. |
| Search.SelectPositions | js/app.js:74 | The filter keeps exactly the elements that satisfy the predicate, at increasing positions of the list. |
| Search.FilterSelects | js/app.js:74-79 | The search filter keeps exactly the matching products, in their original order. |
| Search.ShownAreProducts | js/app.js:73-80 | Only products are shown, and for a non-empty query only matching ones. |
| Search.NameMatchIsShown | js/app.js:72-75 | A product whose lower-cased name contains the trimmed, lower-cased search text is shown, so "rice" finds "Rice". |
| Search.TypedNameIsShown | js/app.js:72-75 | A product whose name contains the trimmed search text as typed is shown. |
| Search.DateIsShown | js/app.js:76-78 | Typing a product's ISO date as the table shows it finds that product. |
| Search.RenderedDateIsQuery | js/app.js:72-76 | A shown ISO date is unchanged by trimming and lower-casing. |
| Search.FilterEmptyQuery | js/app.js:73-74 | Filtering by the empty query would keep every product, so the early return for an empty query agrees with filtering. |
| Search.SelectAll | js/app.js:74 | A filter whose predicate holds for every element keeps the whole list. |
| Search.QuantityIsShown | js/app.js:77 | Typing a product's quantity finds that product. |
| Search.QuantityTextIsQuery | js/app.js:77 | The quantity text is unchanged by trimming and lower-casing. |
| Validation.ValidateAddDecides | js/app.js:17-22 | A request is built exactly when the trimmed name and the date are non-empty and the quantity parses to a positive integer; a missing name or date is reported first, and a blank name counts as missing. |
| Validation.AcceptedRequest | js/app.js:17-27 | An accepted request carries the trimmed name and the date as entered, with a positive quantity read from the field. |
| Validation.ValidateAddAcceptsItem | js/app.js:17-22 | Every product whose name has no white space at either end, with a date and a positive quantity can be entered by typing its fields. |
| Validation.ValidateAddTruncates | js/app.js:19-22 | A quantity such as `2.5` or `3 boxes` is accepted with its leading integer. |
| Validation.ValidateAddRefusesNonPositive | js/app.js:22 | Zero and negative quantities are refused as invalid. |
| Text.TrimStart | js/app.js:17 | What is left after dropping leading white space does not start with white space. |
| Text.TrimStartSplits | js/app.js:17 | What `TrimStart` leaves is a suffix of the input, and what it drops is all white space. |
| Text.TrimEnd | js/app.js:17 | What is left after dropping trailing white space does not end with white space. |
| Text.TrimEndSplits | js/app.js:17 | What `TrimEnd` leaves is a prefix of the input, and what it drops is all white space. |
| Text.Trim | js/app.js:17 | The trimmed text sits in the input with only white space before and after it, and has none at either end. |
| Text.TrimEmptyIffBlank | js/app.js:21 | Text trims to empty exactly when it is all white space. |
| Text.TrimIdempotent | js/app.js:17 | Trimming twice is trimming once. |
| Text.Lower | js/app.js:75 | Lower-casing keeps the length, maps each character on its own and leaves no upper-case letter. |
| Text.LowerNoLetters | js/app.js:76 | Text with no upper-case letter is unchanged by lower-casing. |
| Text.LowerSlice | js/app.js:75 | Lower-casing commutes with taking a slice. |
| Text.ContainsIff | js/app.js:75-78 | `includes` holds exactly when the query occurs at some position. |
| Text.OccursAtTail | js/app.js:75 | An occurrence past the first position is an occurrence in the tail, and one at the first position is a prefix. |
| Text.ContainsEmpty | js/app.js:75 | Every text contains the empty query. |
| Text.ContainsLower | js/app.js:75 | A match survives lower-casing both sides. |
| Text.NaturalString | js/app.js:77 | The decimal text of a natural number is non-empty, all digits, with no leading zero except for 0. |
| Text.DecimalString | js/app.js:77 | `String(n)` is non-empty and starts with a minus sign exactly for negative numbers. |
| Text.DigitsValueOfNaturalString | js/app.js:19 | Reading the digits of a number gives the number back. |
| Text.LeadingDigits | js/app.js:19 | The digit run `parseInt` reads is a prefix of digits followed by a non-digit or the end. |
| Text.ParseIntDecimalString | js/app.js:19 | `parseInt` reads back what `String(n)` wrote, ignoring any text after the first non-digit. |
| Text.ParseIntMinus | js/app.js:19 | A minus sign followed by a run of digits reads as the negated value of the digits. |
| Text.ParseIntUnsigned | js/app.js:19 | Text starting with a digit reads as its run of digits. |
| Text.ParseDigitsOfDigits | js/app.js:19 | A run of digits up to the first non-digit reads as its value. |
| Text.ParseIntSkipsWhitespace | js/app.js:19 | Leading white space does not change what `parseInt` reads. |
| Products.RenderDate | js/app.js:76 | An ISO date is shown in the `dd/mm/yyyy` shape; anything else shows `Invalid Date`. |
| Products.RenderDateRoundTrip | js/app.js:76 | The shown date loses nothing: the ISO date can be read back from it. |
| Products.LowerRenderDate | js/app.js:76 | Lower-casing a shown ISO date changes nothing. |

## Left out

- Network calls to the API (`fetch` in `fetchProducts`, `addProduct`, `changeQuantity` and `deleteProduct`, js/app.js:7-11, 24-34, 83-96) are outside the model. `Table.ProductTable.Load` takes the list the API returned as a parameter.
- DOM rendering (`renderTable`, js/app.js:37-57), reading the form and search inputs, clearing the form, `alert` and `confirm`, and the `DOMContentLoaded` hook (js/app.js:103-105) are outside the model. The field texts are parameters, the shown list is a result, and the two alerts are the `Validation.Rejection` values.
- `changeQuantity` and `deleteProduct` only send requests and reload the list, so nothing of them is modelled beyond `Load`.
- Ordering.LexCompare: stands in for `localeCompare` as code-point order. Collation by locale (accents, case) is not modelled.
- Ordering.Compare: on the date column, an unparsable date makes the JavaScript comparator return `NaN`, and the resulting order depends on the engine. The model compares the date strings instead.
- Products.RenderDate: checks only the `yyyy-mm-dd` shape, not that day and month exist in the calendar, and fixes the `pt-BR` format rather than a locale.
- Text.ParseInt: uses unbounded integers. The floating-point range of `parseInt`, its loss of precision past 2^53 and its `Infinity` result are not modelled.
- Text.DecimalString: always writes every digit. `String(n)` writes exponent form for magnitudes of 1e21 and more (for example `1e+21`), so for such quantities the text the search matches against differs from the model's.
- Text.IsWhitespace and Text.LowerChar: are ASCII only. Unicode white space and case mapping are not modelled.
- Table.ProductTable.SortTable: the sort is the library call `Array.prototype.sort`, so the model assigns the stable sort's result to `products` rather than writing out a sorting loop.
