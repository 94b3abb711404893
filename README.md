# std_sort_example in Dafny

A model of `std_sort_example.cpp`, a small program that shows how to call
`std::sort` on two kinds of sequence:

- `sort_int_array(ia, num_elements)` gets a C array. The array parameter
  decays to a pointer to its first element, so the caller must pass the
  element count, computed where the array is declared as
  `sizeof(intArray) / sizeof(intArray[0])`. The function then sorts
  `[ia, ia + num_elements)` in place.
- `sort_char_vector(vc)` gets a `vector<char>` **by value**. It sorts its own
  copy, and the caller's vector keeps its original order.
- `main` sorts `{35, 10, 93, 85, 62, 77, 345, 43, 2, 10}` through
  `sort_int_array`. It then passes `{'t','o','y',' ','b','o','a','t'}` to
  `sort_char_vector`.

There are two modules, one per file:

- `Sorting` (`sorting.dfy`) models the contract of `std::sort`, as given in
  ISO/IEC 14882:2020 section 25.8.2.1 [sort]. The range ends up ascending by
  `operator<`. The result is a permutation of the range. Nothing outside the
  range is touched.
  - Elements are compared through a key `T -> int`: the identity for `int`,
    the character code for `char`. One generic definition therefore serves
    both of the program's element types.
  - `Sort` is an in-place insertion sort on the prefix `[0, n)` of an array.
    It stands in for the library's algorithm.
  - `SortedOf` is a reference sort on values.
  - `SortedPermutationUnique` says that a range has only one sorted
    permutation when `operator<` is a strict total order, which holds for
    `int` and `char`. So the array sort's result equals `SortedOf` of the old
    range.
- `StdSortExample` (`std_sort_example.dfy`) models the program's three
  functions.
  - `SortIntArray` takes the array together with its count.
  - `SortCharVector` takes a `seq<char>`, which is a value. It copies the
    value into a fresh local array and sorts that.
  - `ArrayDemo`, `VectorDemo` and `RunDemo` replay `main` and state its
    concrete results.

The by-value discipline shows in three ways:

- `SortCharVector` has no `modifies` clause, so it cannot change any array
  that its caller holds.
- `VectorDemo` proves that the caller's `charVector` is identical before and
  after the call.
- The sorted contents of the callee's copy are returned as an out-parameter.
  The C++ function returns nothing and simply drops them at its closing brace.

## Model

| member | source | states |
|---|---|---|
| `Sorting.Sort` | std_sort_example.cpp:102 | `sort(ia, ia + n)`: afterwards `a[..n]` is ascending, `multiset(a[..n])` is unchanged, and `a[n..]` is unchanged. With `n = 0` nothing changes. |
| `Sorting.SortedOf` | std_sort_example.cpp:102 | The reference result of sorting a range: it has the same length, is ascending, and has exactly the same elements. |
| `Sorting.Insert` | std_sort_example.cpp:102 | One step of the reference sort: the result has one more element, namely `x` added to the multiset of `s`. |
| `Sorting.InsertSorted` | std_sort_example.cpp:102 | Inserting into an ascending sequence keeps it ascending. |
| `Sorting.SortedPermutationUnique` | std_sort_example.cpp:102 | With a strict total order, two ascending sequences with the same elements are equal. So any correct sort of a range gives one determined result. |
| `Sorting.SortedOfSorted` | std_sort_example.cpp:102 | Sorting a range that is already ascending leaves it unchanged. |
| `Sorting.SortedOfIdempotent` | std_sort_example.cpp:102 | Sorting twice gives the same result as sorting once. |
| `StdSortExample.SortIntArray` | std_sort_example.cpp:68-106 | The caller supplies the count, and `0 <= num_elements <= length` is demanded of it. Afterwards the first `num_elements` elements are ascending, a permutation of the old ones, and equal to `SortedOf` of them. The rest of the array is unchanged. |
| `StdSortExample.SortCharVector` | std_sort_example.cpp:111-124 | The callee's copy of `vc` ends ascending by character code. It is a permutation of `vc` and equal to `SortedOf(vc)`. No caller state can change. |
| `StdSortExample.DemoIntsSorted` | std_sort_example.cpp:43 | The only ascending permutation of `{35,10,93,85,62,77,345,43,2,10}` is `{2,10,10,35,43,62,77,85,93,345}`. |
| `StdSortExample.DemoCharsSorted` | std_sort_example.cpp:55 | The only ascending permutation of `t,o,y, ,b,o,a,t` is ` ,a,b,o,o,t,t,y`. |
| `StdSortExample.ArrayDemo` | std_sort_example.cpp:43-51 | The count computed at the declaration is 10. After `sort_int_array` the caller's array holds `{2,10,10,35,43,62,77,85,93,345}`. |
| `StdSortExample.VectorDemo` | std_sort_example.cpp:55-59 | After the by-value call, the caller's `charVector` still holds `t,o,y, ,b,o,a,t` in its original order. The callee's copy was sorted to ` ,a,b,o,o,t,t,y`. |
| `StdSortExample.RunDemo` | std_sort_example.cpp:39-63 | `main` runs the array demo and then the vector demo, with the concrete results of both. |

## Left out

- `display_array_elements` and `display_vector_elements` (std_sort_example.cpp:129-152) and every call to them: they only write to the console.
- The closing prompt and `cin.get()` (std_sort_example.cpp:61-62): console I/O.
- The `__FUNCTION_NAME__` macro (std_sort_example.cpp:11-18): it only picks a compiler's name for the current function, for printing.
- `bad_array_size = sizeof(ia) / sizeof(ia[0])` (std_sort_example.cpp:93): the value is never used, and it depends on pointer width. It exists to illustrate the pitfall that the explicit count avoids.
- Passing a wrong count to `sort_int_array`: that is undefined behaviour in C++. The model makes it a violated precondition (`numElements <= ia.Length`) rather than modelling out-of-range access.
- The internal algorithm of `std::sort`, typically an introsort: only its contract is modelled, and `Sorting.Sort` is an insertion sort.
- Integer width: `int` is unbounded here. Sorting only compares values and never does arithmetic on them, so 32-bit width does not affect the result.
- Signedness of `char`: characters compare by Dafny's (unsigned) character code. In C++, plain `char` may be signed, which would move characters above 127 to the front. The program's characters are all ASCII, where the two orders agree.
- Sorting the vector by reference: `sort_char_vector` only ever takes its vector by value. The by-reference form appears in a comment (std_sort_example.cpp:28-30) but not in the code, so the model has no by-reference variant.
