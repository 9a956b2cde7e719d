/** The capability set shared by the two ordered containers (the `Dontainer`
    concept): insert, remove, clear, search, min, max, contains, size and
    empty.  Each operation is stated here against the abstract set of values
    a container holds; the AVL tree and the skip list each prove that their
    operations meet these predicates.  A returned `T*` is modelled as an
    `Option` of the stored value, `nullptr` being `None`. */
module Container {

  /** A pointer into the container's storage, or `nullptr`. */
  datatype Option<T> = None | Some(value: T)

  /** `insert(v)` reports whether `v` was new; afterwards `v` is present. */
  predicate InsertContract(s: set<int>, v: int, inserted: bool, s': set<int>)
  {
    (inserted <==> v !in s) && s' == s + {v}
  }

  /** `remove(v)` reports whether `v` was present; afterwards it is gone. */
  predicate RemoveContract(s: set<int>, v: int, removed: bool, s': set<int>)
  {
    (removed <==> v in s) && s' == s - {v}
  }

  /** `search(v)` points at an equivalent stored value, or is `nullptr`. */
  predicate SearchContract(s: set<int>, v: int, r: Option<int>)
  {
    (r.Some? <==> v in s) && (r.Some? ==> r.value == v)
  }

  predicate ContainsContract(s: set<int>, v: int, b: bool)
  {
    b <==> v in s
  }

  /** `min()` is `nullptr` exactly on the empty container, else the least value. */
  predicate MinContract(s: set<int>, r: Option<int>)
  {
    (r.None? <==> s == {}) &&
    (r.Some? ==> r.value in s && forall y :: y in s ==> r.value <= y)
  }

  /** `max()` is `nullptr` exactly on the empty container, else the greatest value. */
  predicate MaxContract(s: set<int>, r: Option<int>)
  {
    (r.None? <==> s == {}) &&
    (r.Some? ==> r.value in s && forall y :: y in s ==> y <= r.value)
  }

  predicate SizeContract(s: set<int>, n: nat)
  {
    n == |s|
  }

  predicate EmptyContract(s: set<int>, b: bool)
  {
    b <==> s == {}
  }

  /** `clear()` leaves nothing behind. */
  predicate ClearContract(s': set<int>)
  {
    s' == {}
  }
}
