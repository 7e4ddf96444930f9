/**
 * The in-memory user store: an ordered list of user records keyed by
 * `cedula` (a national identity number), with add, find, delete, count and
 * clear operations. Persistence to browser storage is not part of this model;
 * the list read back from storage is taken as the constructor's argument.
 */
module UserStore {

  datatype Option<T> = None | Some(value: T)

  /** The store's one failure: adding a record whose cedula is already present. */
  datatype StoreError = DuplicateCedula

  datatype Result<T> = Ok(value: T) | Err(error: StoreError)

  /**
   * A record as the caller hands it to `Add`: the key `cedula` and the rest of
   * the caller's fields, kept opaque as `fields`.
   */
  datatype NewUser<P> = NewUser(cedula: string, fields: P)

  /**
   * A stored record: the caller's cedula and fields, plus the three fields the
   * store injects when it adds the record.
   */
  datatype User<P> = User(cedula: string, fields: P, id: int, fechaRegistro: string, activo: bool)

  // ---------------------------------------------------------------------
  // Specification functions over the list
  // ---------------------------------------------------------------------

  /** Some record of `s` carries the cedula `c`. */
  predicate HasCedula<P>(s: seq<User<P>>, c: string)
  {
    exists i :: 0 <= i < |s| && s[i].cedula == c
  }

  /** `i` is the position of the first record of `s` whose cedula is `c`. */
  predicate FirstWith<P>(s: seq<User<P>>, c: string, i: int)
  {
    0 <= i < |s| && s[i].cedula == c && forall j :: 0 <= j < i ==> s[j].cedula != c
  }

  /** The store's invariant: no two records share a cedula. */
  ghost predicate DistinctCedulas<P>(s: seq<User<P>>)
  {
    forall i, j :: 0 <= i < j < |s| ==> s[i].cedula != s[j].cedula
  }

  /**
   * The search `findIndex(u => u.cedula === c)`: the position of the first
   * matching record, or -1 when there is none.
   */
  function FindIndex<P>(s: seq<User<P>>, c: string): (r: int)
    ensures -1 <= r < |s|
    ensures r == -1 <==> !HasCedula(s, c)
    ensures r != -1 ==> FirstWith(s, c, r)
  {
    if |s| == 0 then -1
    else if s[0].cedula == c then 0
    else
      var k := FindIndex(s[1..], c);
      if k == -1 then -1 else k + 1
  }

  /**
   * The search `find(u => u.cedula === c)`: the first matching record, or
   * nothing when there is none.
   */
  function Find<P>(s: seq<User<P>>, c: string): (r: Option<User<P>>)
    ensures r.None? <==> !HasCedula(s, c)
    ensures r.Some? ==> exists i :: FirstWith(s, c, i) && s[i] == r.value
  {
    if |s| == 0 then None
    else if s[0].cedula == c then Some(s[0])
    else Find(s[1..], c)
  }

  /** `splice(i, 1)`: the list without its element at position `i`. */
  function RemoveAt<P>(s: seq<User<P>>, i: nat): (r: seq<User<P>>)
    requires i < |s|
    ensures |r| == |s| - 1
    ensures forall k :: 0 <= k < i ==> r[k] == s[k]
    ensures forall k :: i <= k < |r| ==> r[k] == s[k + 1]
    ensures multiset(r) + multiset{s[i]} == multiset(s)
  {
    assert s == s[..i] + [s[i]] + s[i + 1..];
    s[..i] + s[i + 1..]
  }

  // ---------------------------------------------------------------------
  // Properties of the specification functions
  // ---------------------------------------------------------------------

  /** There is at most one first match, so `FirstWith` pins down a position. */
  lemma FirstWithUnique<P>(s: seq<User<P>>, c: string, i: int, j: int)
    requires FirstWith(s, c, i) && FirstWith(s, c, j)
    ensures i == j
  {
  }

  /** `find` and `findIndex` agree: `find` yields the record at `findIndex`'s position. */
  lemma FindAtFindIndex<P>(s: seq<User<P>>, c: string)
    ensures var k := FindIndex(s, c);
      Find(s, c) == if k == -1 then None else Some(s[k])
  {
  }

  /** In a list with distinct cedulas, looking up a record's cedula finds that record. */
  lemma FindInDistinct<P>(s: seq<User<P>>, i: nat)
    requires DistinctCedulas(s)
    requires i < |s|
    ensures FindIndex(s, s[i].cedula) == i
    ensures Find(s, s[i].cedula) == Some(s[i])
  {
  }

  /** Appending a record whose cedula is absent keeps the cedulas distinct. */
  lemma AppendFreshKeepsDistinct<P>(s: seq<User<P>>, x: User<P>)
    requires DistinctCedulas(s)
    requires !HasCedula(s, x.cedula)
    ensures DistinctCedulas(s + [x])
  {
  }

  /** Removing any one record keeps the cedulas distinct. */
  lemma RemoveAtKeepsDistinct<P>(s: seq<User<P>>, i: nat)
    requires DistinctCedulas(s)
    requires i < |s|
    ensures DistinctCedulas(RemoveAt(s, i))
  {
  }

  /** After a fresh record is appended, looking up its cedula finds exactly it. */
  lemma FindAfterAppend<P>(s: seq<User<P>>, x: User<P>)
    requires !HasCedula(s, x.cedula)
    ensures FindIndex(s + [x], x.cedula) == |s|
    ensures Find(s + [x], x.cedula) == Some(x)
  {
    var t := s + [x];
    assert t[|s|].cedula == x.cedula;
    assert forall k :: 0 <= k < |s| ==> t[k] == s[k];
  }

  /** Appending a record does not change the lookup of any other cedula. */
  lemma FindOtherAfterAppend<P>(s: seq<User<P>>, x: User<P>, c: string)
    requires c != x.cedula
    ensures Find(s + [x], c) == Find(s, c)
  {
    var t := s + [x];
    var k := FindIndex(s, c);
    assert forall i :: 0 <= i < |s| ==> t[i] == s[i];
    if k == -1 {
      assert !HasCedula(t, c);
    } else {
      assert FirstWith(t, c, k) by {
        forall j | 0 <= j < k ensures t[j].cedula != c {
          assert t[j] == s[j];
        }
      }
      FirstWithUnique(t, c, k, FindIndex(t, c));
    }
  }

  /**
   * Removing the record at position `i` moves the first record with any
   * other cedula `d` down one place when it came after `i`, and leaves it in
   * place when it came before.
   */
  lemma FindIndexAfterRemoveAt<P>(s: seq<User<P>>, i: nat, d: string)
    requires i < |s| && s[i].cedula != d
    ensures var k := FindIndex(s, d);
      FindIndex(RemoveAt(s, i), d) == if k == -1 then -1 else if k < i then k else k - 1
  {
    var r := RemoveAt(s, i);
    var k := FindIndex(s, d);
    if k == -1 {
      forall a | 0 <= a < |r| ensures r[a].cedula != d {
        var a' := if a < i then a else a + 1;
        assert r[a] == s[a'];
      }
    } else {
      var k' := if k < i then k else k - 1;
      assert r[k'] == s[k];
      assert FirstWith(r, d, k') by {
        forall j | 0 <= j < k' ensures r[j].cedula != d {
          var j' := if j < i then j else j + 1;
          assert r[j] == s[j'] && j' < k;
        }
      }
      FirstWithUnique(r, d, k', FindIndex(r, d));
    }
  }

  /**
   * Removing the first record with cedula `c` does not change the lookup of
   * any other cedula `d`, whether or not the cedulas are distinct.
   */
  lemma FindOtherAfterRemove<P>(s: seq<User<P>>, c: string, d: string)
    requires HasCedula(s, c)
    requires c != d
    ensures Find(RemoveAt(s, FindIndex(s, c)), d) == Find(s, d)
  {
    var i := FindIndex(s, c);
    var r := RemoveAt(s, i);
    FindIndexAfterRemoveAt(s, i, d);
    FindAtFindIndex(s, d);
    FindAtFindIndex(r, d);
    var k := FindIndex(s, d);
    if k != -1 {
      assert r[if k < i then k else k - 1] == s[k];
    }
  }

  /** In a list with distinct cedulas, removing the record with cedula `c` leaves none. */
  lemma RemoveLeavesNone<P>(s: seq<User<P>>, c: string)
    requires DistinctCedulas(s)
    requires HasCedula(s, c)
    ensures !HasCedula(RemoveAt(s, FindIndex(s, c)), c)
  {
  }

  /** Deleting the cedula of a record just added restores the list as it was. */
  lemma RemoveUndoesAppend<P>(s: seq<User<P>>, x: User<P>)
    requires !HasCedula(s, x.cedula)
    ensures var k := FindIndex(s + [x], x.cedula); k == |s| && RemoveAt(s + [x], k) == s
  {
    FindAfterAppend(s, x);
    assert (s + [x])[..|s|] == s;
  }

  // ---------------------------------------------------------------------
  // The store
  // ---------------------------------------------------------------------

  class Store<P> {
    /** The live list of records, in insertion order. */
    var users: seq<User<P>>

    /** No two records share a cedula. */
    ghost predicate Valid()
      reads this
    {
      DistinctCedulas(users)
    }

    /**
     * The store starts from the list read back from storage, or from the
     * empty list when nothing was stored. The stored list is not checked, so
     * the store is valid only when it starts empty or from a list whose
     * cedulas are already distinct.
     */
    constructor (stored: Option<seq<User<P>>>)
      ensures stored.None? ==> users == [] && Valid()
      ensures stored.Some? ==> users == stored.value
      ensures stored.Some? ==> (Valid() <==> DistinctCedulas(stored.value))
    {
      users := if stored.Some? then stored.value else [];
    }

    /**
     * Adds the caller's record, stamped with `id`, `fechaRegistro` and
     * `activo = true`, unless a record with its cedula is already stored.
     * On success it returns the caller's record, not the stamped one.
     */
    method Add(u: NewUser<P>, id: int, fechaRegistro: string) returns (r: Result<NewUser<P>>)
      modifies this
      ensures r.Err? <==> HasCedula(old(users), u.cedula)
      ensures r.Err? ==> r.error == DuplicateCedula && users == old(users)
      ensures r.Ok? ==> r.value == u
      ensures r.Ok? ==> users == old(users) + [User(u.cedula, u.fields, id, fechaRegistro, true)]
      ensures old(Valid()) ==> Valid()
    {
      var existing := Find(users, u.cedula);
      if existing.Some? {
        return Err(DuplicateCedula);
      }
      var stamped := User(u.cedula, u.fields, id, fechaRegistro, true);
      if Valid() {
        AppendFreshKeepsDistinct(users, stamped);
      }
      users := users + [stamped];
      r := Ok(u);
    }

    /** The first record whose cedula is `cedula`, or nothing. */
    method FindByCedula(cedula: string) returns (r: Option<User<P>>)
      ensures r.None? <==> !HasCedula(users, cedula)
      ensures r.Some? ==> FirstWith(users, cedula, FindIndex(users, cedula)) && r.value == users[FindIndex(users, cedula)]
      ensures Valid() && r.Some? ==> forall i :: 0 <= i < |users| && users[i].cedula == cedula ==> r.value == users[i]
    {
      r := Find(users, cedula);
      if r.Some? && Valid() {
        forall i | 0 <= i < |users| && users[i].cedula == cedula
          ensures r.value == users[i]
        {
          FindInDistinct(users, i);
        }
      }
    }

    /**
     * Deletes the first record whose cedula is `cedula`, keeping the order of
     * the others, and reports whether there was one.
     */
    method Remove(cedula: string) returns (removed: bool)
      modifies this
      ensures removed <==> HasCedula(old(users), cedula)
      ensures removed ==> users == RemoveAt(old(users), FindIndex(old(users), cedula))
      ensures !removed ==> users == old(users)
      ensures |users| == if removed then |old(users)| - 1 else |old(users)|
      ensures old(Valid()) ==> Valid() && !HasCedula(users, cedula)
    {
      var index := FindIndex(users, cedula);
      if index != -1 {
        if Valid() {
          RemoveAtKeepsDistinct(users, index);
          RemoveLeavesNone(users, cedula);
        }
        users := RemoveAt(users, index);
        return true;
      }
      return false;
    }

    /** The number of stored records. */
    method Count() returns (n: nat)
      ensures n == |users|
    {
      n := |users|;
    }

    /** Empties the store. */
    method Clear()
      modifies this
      ensures users == [] && Valid()
    {
      users := [];
    }
  }

  /**
   * A client of the store: the scenario of adding a cedula, adding it again,
   * and deleting it, argued from the contracts alone.
   */
  method Scenario()
  {
    var store := new Store<int>(None);
    var added := store.Add(NewUser("123", 0), 1, "t1");
    assert added == Ok(NewUser("123", 0));
    var n := store.Count();
    assert n == 1;
    var again := store.Add(NewUser("123", 7), 2, "t2");
    assert store.users[0].cedula == "123";
    assert again == Err(DuplicateCedula);
    n := store.Count();
    assert n == 1;
    var found := store.FindByCedula("123");
    assert found == Some(User("123", 0, 1, "t1", true));
    var removed := store.Remove("123");
    assert removed;
    n := store.Count();
    assert n == 0;
    removed := store.Remove("123");
    assert !removed;
  }
}
