/**
  Name registries of src/tablegenerator.cpp: the maps `Inst_names`,
  `Algo_names` and `Seed_names` together with the counter that hands out the
  next index (`try_emplace(name, Idx)` followed by `++Idx` when the name was
  new), and the inclusion lists read by `read_selected_instances` and
  `read_selected_algorithms`.
*/
module Registry {

  import opened Strings
  import opened Wrappers

  /** A name-to-index map and the index the next new name gets. */
  datatype Registry = Registry(index: map<string, nat>, count: nat)

  const Empty := Registry(map[], 0)

  /** Indices are exactly 0 .. count-1, one name each: count names, each
      with an index below count, no two with the same index. */
  ghost predicate Dense(r: Registry)
  {
    |r.index.Keys| == r.count
    && (forall a :: a in r.index ==> r.index[a] < r.count)
    && (forall a, b :: a in r.index && b in r.index && r.index[a] == r.index[b] ==> a == b)
  }

  lemma {:induction false} EmptyDense()
    ensures Dense(Empty)
  {
  }

  /** `if (names.try_emplace(name, Idx).second) ++Idx;` */
  function Register(r: Registry, name: string): (r': Registry)
    ensures name in r'.index && r'.index.Keys == r.index.Keys + {name}
    ensures forall n :: n in r.index ==> r'.index[n] == r.index[n]
  {
    if name in r.index then r else Registry(r.index[name := r.count], r.count + 1)
  }

  /** A known name keeps its index; a new name gets the next index; the
      registry stays dense. */
  lemma {:induction false} RegisterDense(r: Registry, name: string)
    requires Dense(r)
    ensures var r' := Register(r, name);
      Dense(r')
      && (name in r.index ==> r' == r)
      && (name !in r.index ==> r'.index[name] == r.count && r'.count == r.count + 1)
  {
    if name !in r.index {
      assert name !in r.index.Keys;
    }
  }

  /** Every index below count belongs to some name. */
  lemma {:induction false} DenseOnto(r: Registry, k: nat)
    requires Dense(r) && k < r.count
    ensures exists n :: n in r.index && r.index[n] == k
  {
    var image := set n | n in r.index :: r.index[n];
    ImageSize(r.index.Keys, r.index);
    var all := Upto(r.count);
    if k !in image {
      SubsetSize(image, all - {k});
      assert false;
    }
  }

  lemma {:induction false} SubsetSize(a: set<nat>, b: set<nat>)
    requires a <= b
    ensures |a| <= |b|
  {
    if a != {} {
      var x :| x in a;
      SubsetSize(a - {x}, b - {x});
    }
  }

  /** A map that is injective on A has as many values on A as A has
      elements. */
  lemma {:induction false} ImageSize(A: set<string>, m: map<string, nat>)
    requires A <= m.Keys
    requires forall a, b :: a in A && b in A && m[a] == m[b] ==> a == b
    ensures |set a | a in A :: m[a]| == |A|
  {
    if A != {} {
      var x :| x in A;
      ImageSize(A - {x}, m);
      var before := set a | a in A - {x} :: m[a];
      assert (set a | a in A :: m[a]) == before + {m[x]};
      assert m[x] !in before;
    }
  }

  /** The indices 0 .. n-1. */
  function Upto(n: nat): (r: set<nat>)
    ensures |r| == n
    ensures forall j: int :: j in r <==> 0 <= j < n
  {
    if n == 0 then {}
    else
      assert n - 1 !in Upto(n - 1);
      Upto(n - 1) + {n - 1}
  }

  /** In a dense registry, the names whose index satisfies p are as many as
      the indices below count that satisfy p. */
  lemma {:induction false} DenseCount(r: Registry, p: nat -> bool)
    requires Dense(r)
    ensures |set n | n in r.index && p(r.index[n])| == |set k: nat | k < r.count && p(k)|
  {
    var A := set n | n in r.index && p(r.index[n]);
    var B := set k: nat | k < r.count && p(k);
    ImageSize(A, r.index);
    forall k | k in B
      ensures k in set a | a in A :: r.index[a]
    {
      DenseOnto(r, k);
    }
    assert (set a | a in A :: r.index[a]) == B;
  }

  // ---------------------------------------------------------------------
  // Inclusion lists.

  /** The name a line of an inclusion list contributes, if any: the line is
      trimmed of spaces; empty lines and lines starting with '#' are
      skipped; the name stops at the first '\r' (DOS line endings). */
  function ListedName(line: string): (r: Option<string>)
    ensures r.Some? ==> Free(r.value, '\r') && (r.value == "" || r.value[0] != ' ')
  {
    var t := TrimErase(line);
    if t == "" || t[0] == '#' then None
    else
      var n := t[..Find(t, '\r')];
      assert Free(n, '\r') by {
        forall i | 0 <= i < |n| ensures n[i] != '\r' { FindFirst(t, '\r', i); }
      }
      Some(n)
  }

  /** The registry an inclusion list builds, line by line. */
  function ReadList(lines: seq<string>): Registry
  {
    if lines == [] then Empty
    else
      var r := ReadList(lines[..|lines| - 1]);
      match ListedName(lines[|lines| - 1])
      case None => r
      case Some(n) => Register(r, n)
  }

  /** The registry an inclusion list builds is dense. */
  lemma {:induction false} ReadListDense(lines: seq<string>)
    ensures Dense(ReadList(lines))
  {
    if lines == [] {
      EmptyDense();
    } else {
      ReadListDense(lines[..|lines| - 1]);
      match ListedName(lines[|lines| - 1])
      case None =>
      case Some(n) => RegisterDense(ReadList(lines[..|lines| - 1]), n);
    }
  }

  /** Every name a line contributes is registered. */
  lemma {:induction false} ReadListHasListed(lines: seq<string>, j: nat)
    requires j < |lines| && ListedName(lines[j]).Some?
    ensures ListedName(lines[j]).value in ReadList(lines).index
  {
    if j < |lines| - 1 {
      var init := lines[..|lines| - 1];
      assert init[j] == lines[j];
      ReadListHasListed(init, j);
    }
  }

  /** Only names the lines contribute are registered. */
  lemma {:induction false} ReadListOnlyListed(lines: seq<string>, n: string)
    requires n in ReadList(lines).index
    ensures exists j :: 0 <= j < |lines| && ListedName(lines[j]) == Some(n)
  {
    var init := lines[..|lines| - 1];
    if ListedName(lines[|lines| - 1]) != Some(n) {
      ReadListOnlyListed(init, n);
      var j :| 0 <= j < |init| && ListedName(init[j]) == Some(n);
      assert lines[j] == init[j];
    }
  }
}
