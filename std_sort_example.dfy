/**
  The example program: sort_int_array sorts a length-less int array over an
  explicit count, sort_char_vector sorts a by-value copy of a vector<char>,
  and the entry point runs both on literal data.
 */
module StdSortExample {
  import opened Sorting

  /** operator< on int. */
  function IntKey(x: int): int { x }

  /** operator< on char: comparison by character code. */
  function CharKey(c: char): int { c as int }

  /** Distinct ints compare unequal. */
  lemma IntKeyInjective()
    ensures Injective(IntKey)
  {
  }

  /** Distinct chars have distinct codes. */
  lemma CharKeyInjective()
    ensures Injective(CharKey)
  {
  }

  /**
    sort_int_array(ia, num_elements): the array parameter carries no length,
    so the caller passes the element count, and std::sort works on
    [ia, ia + num_elements). A count larger than the array is undefined
    behaviour in the source and a violated precondition here.
   */
  method SortIntArray(ia: array<int>, numElements: int)
    requires 0 <= numElements <= ia.Length
    modifies ia
    ensures Sorted(ia[..numElements], IntKey)
    ensures multiset(ia[..numElements]) == multiset(old(ia[..numElements]))
    ensures ia[..numElements] == SortedOf(old(ia[..numElements]), IntKey)
    ensures ia[numElements..] == old(ia[numElements..])
  {
    Sort(ia, numElements, IntKey);
    IntKeyInjective();
    SortedPermutationUnique(ia[..numElements], SortedOf(old(ia[..numElements]), IntKey), IntKey);
  }

  /**
    sort_char_vector(vc): vc is passed by value, so the callee sorts its own
    copy. The copy is a fresh array that no caller can see; its contents when
    the function returns are given back as sortedCopy, which the source
    discards.
   */
  method SortCharVector(vc: seq<char>) returns (sortedCopy: seq<char>)
    ensures Sorted(sortedCopy, CharKey)
    ensures multiset(sortedCopy) == multiset(vc)
    ensures sortedCopy == SortedOf(vc, CharKey)
  {
    var copy := new char[|vc|](i requires 0 <= i < |vc| => vc[i]);
    assert copy[..copy.Length] == vc;
    Sort(copy, copy.Length, CharKey);
    sortedCopy := copy[..copy.Length];
    CharKeyInjective();
    SortedPermutationUnique(sortedCopy, SortedOf(vc, CharKey), CharKey);
  }

  /** The two orders of the entry point's ints hold the same values. */
  lemma DemoIntsSameBag()
    ensures multiset{35, 10, 93, 85, 62, 77, 345, 43, 2, 10}
         == multiset{2, 10, 10, 35, 43, 62, 77, 85, 93, 345}
  {
  }

  /** The two orders of the entry point's chars hold the same characters. */
  lemma DemoCharsSameBag()
    ensures multiset{'t', 'o', 'y', ' ', 'b', 'o', 'a', 't'}
         == multiset{' ', 'a', 'b', 'o', 'o', 't', 't', 'y'}
  {
  }

  /** The ascending order of the entry point's ints is a permutation of them. */
  lemma DemoIntsPermutation()
    ensures multiset([35, 10, 93, 85, 62, 77, 345, 43, 2, 10])
         == multiset([2, 10, 10, 35, 43, 62, 77, 85, 93, 345])
  {
    assert multiset([35, 10, 93, 85, 62, 77, 345, 43, 2, 10])
        == multiset{35, 10, 93, 85, 62, 77, 345, 43, 2, 10};
    assert multiset([2, 10, 10, 35, 43, 62, 77, 85, 93, 345])
        == multiset{2, 10, 10, 35, 43, 62, 77, 85, 93, 345};
    DemoIntsSameBag();
  }

  /** The ascending order of the entry point's chars is a permutation of them. */
  lemma DemoCharsPermutation()
    ensures multiset(['t', 'o', 'y', ' ', 'b', 'o', 'a', 't'])
         == multiset([' ', 'a', 'b', 'o', 'o', 't', 't', 'y'])
  {
    assert multiset(['t', 'o', 'y', ' ', 'b', 'o', 'a', 't'])
        == multiset{'t', 'o', 'y', ' ', 'b', 'o', 'a', 't'};
    assert multiset([' ', 'a', 'b', 'o', 'o', 't', 't', 'y'])
        == multiset{' ', 'a', 'b', 'o', 'o', 't', 't', 'y'};
    DemoCharsSameBag();
  }

  /** The expected order of the entry point's ints is ascending. */
  lemma DemoIntsAscending()
    ensures Sorted([2, 10, 10, 35, 43, 62, 77, 85, 93, 345], IntKey)
  {
  }

  /** The expected order of the entry point's chars is ascending. */
  lemma DemoCharsAscending()
    ensures Sorted([' ', 'a', 'b', 'o', 'o', 't', 't', 'y'], CharKey)
  {
  }

  /** The ten ints of the entry point have exactly one ascending order. */
  lemma DemoIntsSorted(unsorted: seq<int>, s: seq<int>)
    requires unsorted == [35, 10, 93, 85, 62, 77, 345, 43, 2, 10]
    requires Sorted(s, IntKey) && multiset(s) == multiset(unsorted)
    ensures s == [2, 10, 10, 35, 43, 62, 77, 85, 93, 345]
  {
    DemoIntsPermutation();
    DemoIntsAscending();
    IntKeyInjective();
    SortedPermutationUnique(s, [2, 10, 10, 35, 43, 62, 77, 85, 93, 345], IntKey);
  }

  /** The eight chars of the entry point have exactly one ascending order. */
  lemma DemoCharsSorted(unsorted: seq<char>, s: seq<char>)
    requires unsorted == ['t', 'o', 'y', ' ', 'b', 'o', 'a', 't']
    requires Sorted(s, CharKey) && multiset(s) == multiset(unsorted)
    ensures s == [' ', 'a', 'b', 'o', 'o', 't', 't', 'y']
  {
    DemoCharsPermutation();
    DemoCharsAscending();
    CharKeyInjective();
    SortedPermutationUnique(s, [' ', 'a', 'b', 'o', 'o', 't', 't', 'y'], CharKey);
  }

  /**
    The array half of the entry point: the count is computed where the array
    is declared and passed with it, and sort_int_array sorts the caller's array.
   */
  method ArrayDemo() returns (ints: seq<int>)
    ensures ints == [2, 10, 10, 35, 43, 62, 77, 85, 93, 345]
  {
    var intArray := new int[] [35, 10, 93, 85, 62, 77, 345, 43, 2, 10];
    var numElements := intArray.Length;
    assert numElements == 10;
    ghost var unsorted := intArray[..numElements];
    assert unsorted == [35, 10, 93, 85, 62, 77, 345, 43, 2, 10];
    SortIntArray(intArray, numElements);
    ints := intArray[..numElements];
    DemoIntsSorted(unsorted, ints);
  }

  /**
    The vector half of the entry point: sort_char_vector receives a copy, so
    the caller's charVector keeps its original order while the callee's copy
    ends sorted.
   */
  method VectorDemo() returns (chars: seq<char>, calleeCopy: seq<char>)
    ensures chars == ['t', 'o', 'y', ' ', 'b', 'o', 'a', 't']
    ensures calleeCopy == [' ', 'a', 'b', 'o', 'o', 't', 't', 'y']
  {
    var charVector := new char[] ['t', 'o', 'y', ' ', 'b', 'o', 'a', 't'];
    var passedByValue := charVector[..];
    assert passedByValue == ['t', 'o', 'y', ' ', 'b', 'o', 'a', 't'];
    calleeCopy := SortCharVector(passedByValue);
    DemoCharsSorted(passedByValue, calleeCopy);
    chars := charVector[..];
    assert chars == passedByValue;
  }

  /** The entry point: the array demo, then the vector demo. */
  method RunDemo() returns (ints: seq<int>, chars: seq<char>, calleeCopy: seq<char>)
    ensures ints == [2, 10, 10, 35, 43, 62, 77, 85, 93, 345]
    ensures chars == ['t', 'o', 'y', ' ', 'b', 'o', 'a', 't']
    ensures calleeCopy == [' ', 'a', 'b', 'o', 'o', 't', 't', 'y']
  {
    ints := ArrayDemo();
    chars, calleeCopy := VectorDemo();
  }
}
