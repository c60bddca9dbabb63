/**
 The category text-path to id index that the product import builds before
 it resolves the category column of import rows.

 Every category carries its id and its id path (`1/2/5/7`: the tree
 root, the store root, then the ancestors down to the category itself);
 the names come from the collection, looked up by id. Categories whose
 path has at most two segments -- the tree root and the store roots -- add
 nothing. Every other category writes its id
 under four keys: the empty string, its name path from below the tree
 root, its name path from below the store root, and its own id.
 */
module CategoryIndex {
  import Strings
  import Decimal
  import IndexFold

  datatype Category = Category(id: nat, path: string)

  /** The index: key text to category id. */
  type Index = IndexFold.Index

  /** The names the category collection holds, by category id. */
  type Names = map<nat, string>

  const PathSeparator: char := '/'

  /** The key the index shares between every category that qualifies. */
  const EmptyKey: string := ""

  function Segments(c: Category): seq<string>
  {
    Strings.Split(c.path, PathSeparator)
  }

  /**
   True of every category below a store root: its path has more than two
   segments, that is, at least two separators.
   */
  predicate Qualifies(c: Category)
    ensures Qualifies(c) <==> Strings.Occurrences(c.path, PathSeparator) >= 2
  {
    |Segments(c)| > 2
  }

  /**
   The collection finds an item for a path segment when the segment is the
   canonical decimal text of an id it holds.
   */
  predicate Resolves(seg: string, names: Names)
  {
    Decimal.Parse(seg).Some? && Decimal.Parse(seg).value in names
  }

  /** Every segment after the tree root names a category of the collection. */
  predicate Resolvable(c: Category, names: Names)
  {
    !Qualifies(c) || forall i :: 1 <= i < |Segments(c)| ==> Resolves(Segments(c)[i], names)
  }

  predicate AllResolvable(cats: seq<Category>, names: Names)
  {
    forall i :: 0 <= i < |cats| ==> Resolvable(cats[i], names)
  }

  function NameOf(seg: string, names: Names): string
    requires Resolves(seg, names)
  {
    names[Decimal.Parse(seg).value]
  }

  /** The names of the categories a run of path segments refers to, in order. */
  function NamesOf(segs: seq<string>, names: Names): (r: seq<string>)
    requires forall i :: 0 <= i < |segs| ==> Resolves(segs[i], names)
    ensures |r| == |segs|
    ensures forall i :: 0 <= i < |segs| ==> r[i] == NameOf(segs[i], names)
  {
    if |segs| == 0 then [] else [NameOf(segs[0], names)] + NamesOf(segs[1..], names)
  }

  /** The same path without its first name: it starts below the store root. */
  function StoreNamePath(c: Category, names: Names): string
    requires Qualifies(c) && Resolvable(c, names)
  {
    Strings.Join(NamesOf(Segments(c)[2..], names), PathSeparator)
  }

  /** The names of path segments 1 to the end, joined with `/`. */
  function FullNamePath(c: Category, names: Names): string
    requires Qualifies(c) && Resolvable(c, names)
  {
    Strings.Join(NamesOf(Segments(c)[1..], names), PathSeparator)
  }

  /** The key a category's own id takes in the index. */
  function IdKey(c: Category): string
  {
    Decimal.Format(c.id)
  }

  /** The keys a category writes its id under. */
  function KeysOf(c: Category, names: Names): set<string>
    requires Resolvable(c, names)
  {
    if Qualifies(c) then {EmptyKey, FullNamePath(c, names), StoreNamePath(c, names), IdKey(c)} else {}
  }

  /** True when `c` writes key `k`. */
  predicate Writes(c: Category, names: Names, k: string)
    requires Resolvable(c, names)
  {
    k in KeysOf(c, names)
  }

  /** Dropping the first name leaves the path below the store root. */
  lemma FullPathExtendsStorePath(c: Category, names: Names)
    requires Qualifies(c) && Resolvable(c, names)
    ensures FullNamePath(c, names)
         == NameOf(Segments(c)[1], names) + [PathSeparator] + StoreNamePath(c, names)
  {
    var full := NamesOf(Segments(c)[1..], names);
    assert full[1..] == NamesOf(Segments(c)[2..], names);
  }

  /** What one category does to the index: its keys, all set to its id. */
  function WriteOf(c: Category, names: Names): IndexFold.Write
    requires Resolvable(c, names)
  {
    IndexFold.Write(KeysOf(c, names), c.id)
  }

  /** What each category of the collection does to the index, in iteration order. */
  function WritesOf(cats: seq<Category>, names: Names): (ws: seq<IndexFold.Write>)
    requires AllResolvable(cats, names)
    ensures |ws| == |cats|
  {
    if |cats| == 0 then [] else [WriteOf(cats[0], names)] + WritesOf(cats[1..], names)
  }

  /** The write at position `i` is the write of the category at position `i`. */
  lemma {:induction false} WritesOfAt(cats: seq<Category>, names: Names, i: nat)
    requires AllResolvable(cats, names) && i < |cats|
    ensures Resolvable(cats[i], names)
    ensures WritesOf(cats, names)[i] == WriteOf(cats[i], names)
    decreases |cats|
  {
    if i > 0 {
      assert cats[1..][i - 1] == cats[i];
      WritesOfAt(cats[1..], names, i - 1);
    }
  }

  /**
   One pass of the loop body. Its four updates in a row amount to setting
   every key the category writes to its id at once; a category that does
   not qualify changes nothing.
   */
  function AddCategory(index: Index, c: Category, names: Names): (r: Index)
    requires Resolvable(c, names)
    ensures r == IndexFold.Apply(index, WriteOf(c, names))
    ensures !Qualifies(c) ==> r == index
  {
    if Qualifies(c) then
      var full := FullNamePath(c, names);
      var store := StoreNamePath(c, names);
      IndexFold.SetFour(index, EmptyKey, full, store, IdKey(c), c.id);
      index[EmptyKey := c.id][full := c.id][store := c.id][IdKey(c) := c.id]
    else
      index
  }

  /**
   The index after every category of the collection, in iteration order,
   has been added; no entry present before the call disappears.
   */
  function InitCategories(index: Index, cats: seq<Category>, names: Names): (r: Index)
    requires AllResolvable(cats, names)
    ensures index.Keys <= r.Keys
  {
    if |cats| == 0 then index
    else
      PrefixResolvable(cats, names, |cats| - 1);
      AddCategory(InitCategories(index, cats[..|cats| - 1], names), cats[|cats| - 1], names)
  }

  /**
   The index is the categories' writes applied one after the other, in
   iteration order, each overwriting what earlier ones wrote to its keys.
   */
  lemma {:induction false} InitCategoriesFold(index: Index, cats: seq<Category>, names: Names)
    requires AllResolvable(cats, names)
    ensures InitCategories(index, cats, names) == IndexFold.ApplyAll(index, WritesOf(cats, names))
    decreases |cats|
  {
    if |cats| > 0 {
      var n := |cats| - 1;
      var ws := WritesOf(cats, names);
      PrefixResolvable(cats, names, n);
      var before := InitCategories(index, cats[..n], names);
      assert InitCategories(index, cats, names) == AddCategory(before, cats[n], names);
      InitCategoriesFold(index, cats[..n], names);
      assert before == IndexFold.ApplyAll(index, ws[..n]);
      BuildStep(index, cats, names, n);
      assert ws[..n + 1] == ws;
    }
  }

  /** The inner loop: the names of path segments 1 to the end, collected one by one. */
  method CollectNames(structure: seq<string>, names: Names) returns (path: seq<string>)
    requires |structure| >= 1
    requires forall j :: 1 <= j < |structure| ==> Resolves(structure[j], names)
    ensures path == NamesOf(structure[1..], names)
  {
    path := [];
    var i := 1;
    while i < |structure|
      invariant 1 <= i <= |structure|
      invariant path == NamesOf(structure[1..i], names)
    {
      assert structure[1..i + 1] == structure[1..i] + [structure[i]];
      path := path + [NameOf(structure[i], names)];
      i := i + 1;
    }
    assert structure[1..i] == structure[1..];
  }

  /**
   One iteration of the loop as the import runs it: for a category with a
   deep enough path, write the empty key, collect the names of segments 1
   to the end, write the joined names, drop the first name, write again,
   and finally write the id key.
   */
  method AddOneCategory(index: Index, c: Category, names: Names) returns (r: Index)
    requires Resolvable(c, names)
    ensures r == AddCategory(index, c, names)
  {
    r := index;
    var structure := Strings.Split(c.path, PathSeparator);
    if |structure| > 2 {
      assert structure == Segments(c) && Qualifies(c);
      r := r[Strings.Join([], PathSeparator) := c.id];
      var path := CollectNames(structure, names);
      r := r[Strings.Join(path, PathSeparator) := c.id];
      path := path[1..];
      assert path == NamesOf(structure[2..], names);
      r := r[Strings.Join(path, PathSeparator) := c.id];
      r := r[Decimal.Format(c.id) := c.id];
    }
  }

  /** The loop over the whole collection, in iteration order. */
  method BuildCategoryIndex(index: Index, cats: seq<Category>, names: Names) returns (r: Index)
    requires AllResolvable(cats, names)
    ensures r == InitCategories(index, cats, names)
  {
    r := index;
    var n := 0;
    while n < |cats|
      invariant n <= |cats|
      invariant r == IndexFold.ApplyAll(index, WritesOf(cats, names)[..n])
    {
      BuildStep(index, cats, names, n);
      r := AddOneCategory(r, cats[n], names);
      n := n + 1;
    }
    assert WritesOf(cats, names)[..n] == WritesOf(cats, names);
    InitCategoriesFold(index, cats, names);
  }

  /** One more pass of the loop applies the next category's write on top. */
  lemma {:induction false} BuildStep(index: Index, cats: seq<Category>, names: Names, n: nat)
    requires AllResolvable(cats, names) && n < |cats|
    ensures Resolvable(cats[n], names)
    ensures AddCategory(IndexFold.ApplyAll(index, WritesOf(cats, names)[..n]), cats[n], names)
         == IndexFold.ApplyAll(index, WritesOf(cats, names)[..n + 1])
  {
    WritesOfAt(cats, names, n);
    IndexFold.ApplyAllStep(index, WritesOf(cats, names), n);
  }

  /** Any prefix of a resolvable collection is resolvable, and its writes are a prefix of the writes. */
  lemma PrefixResolvable(cats: seq<Category>, names: Names, n: nat)
    requires n <= |cats| && AllResolvable(cats, names)
    ensures AllResolvable(cats[..n], names)
    ensures WritesOf(cats[..n], names) == WritesOf(cats, names)[..n]
  {
    assert forall j :: 0 <= j < n ==> cats[..n][j] == cats[j];
    forall j | 0 <= j < n
      ensures WritesOf(cats[..n], names)[j] == WritesOf(cats, names)[j]
    {
      WritesOfAt(cats[..n], names, j);
      WritesOfAt(cats, names, j);
    }
  }

  /** The writes of `a + b` are the writes of `a`, then those of `b`. */
  lemma WritesOfConcat(a: seq<Category>, b: seq<Category>, names: Names)
    requires AllResolvable(a + b, names)
    ensures AllResolvable(a, names) && AllResolvable(b, names)
    ensures WritesOf(a + b, names) == WritesOf(a, names) + WritesOf(b, names)
  {
    assert forall j :: 0 <= j < |a| ==> (a + b)[j] == a[j];
    assert forall j :: 0 <= j < |b| ==> (a + b)[|a| + j] == b[j];
    var ws := WritesOf(a + b, names);
    var us := WritesOf(a, names);
    var vs := WritesOf(b, names);
    forall j | 0 <= j < |ws|
      ensures ws[j] == (us + vs)[j]
    {
      WritesOfAt(a + b, names, j);
      if j < |a| {
        WritesOfAt(a, names, j);
      } else {
        WritesOfAt(b, names, j - |a|);
      }
    }
  }

  /** Building over `a + b` is building over `a`, then carrying on over `b` from that index. */
  lemma InitCategoriesConcat(index: Index, a: seq<Category>, b: seq<Category>, names: Names)
    requires AllResolvable(a + b, names)
    ensures AllResolvable(a, names) && AllResolvable(b, names)
    ensures InitCategories(index, a + b, names) == InitCategories(InitCategories(index, a, names), b, names)
  {
    WritesOfConcat(a, b, names);
    InitCategoriesFold(index, a + b, names);
    InitCategoriesFold(index, a, names);
    InitCategoriesFold(InitCategories(index, a, names), b, names);
    IndexFold.ApplyAllConcat(index, WritesOf(a, names), WritesOf(b, names));
  }

  /** The parts of a resolvable collection, and the collection with a resolvable category inserted, are resolvable. */
  lemma ResolvableInsert(a: seq<Category>, c: Category, b: seq<Category>, names: Names)
    requires AllResolvable(a + b, names) && Resolvable(c, names)
    ensures AllResolvable(a, names) && AllResolvable(b, names)
    ensures AllResolvable(a + [c], names) && AllResolvable(a + [c] + b, names)
  {
    var ab := a + b;
    var ac := a + [c];
    var acb := a + [c] + b;
    forall j | 0 <= j < |a|
      ensures Resolvable(a[j], names) && Resolvable(ac[j], names)
    {
      assert ab[j] == a[j] == ac[j];
    }
    forall j | 0 <= j < |b|
      ensures Resolvable(b[j], names)
    {
      assert ab[|a| + j] == b[j];
    }
    assert ac[|a|] == c;
    forall j | 0 <= j < |acb|
      ensures Resolvable(acb[j], names)
    {
      if j < |a| + 1 {
        assert acb[j] == ac[j];
      } else {
        assert acb[j] == b[j - |a| - 1];
      }
    }
  }

  /** Inserting a category between `a` and `b` inserts its write between theirs. */
  lemma WritesOfInsert(a: seq<Category>, c: Category, b: seq<Category>, names: Names)
    requires AllResolvable(a + b, names) && Resolvable(c, names)
    ensures AllResolvable(a, names) && AllResolvable(b, names) && AllResolvable(a + [c] + b, names)
    ensures WritesOf(a + [c] + b, names) == WritesOf(a, names) + [WriteOf(c, names)] + WritesOf(b, names)
  {
    ResolvableInsert(a, c, b, names);
    WritesOfConcat(a + [c], b, names);
    WritesOfConcat(a, [c], names);
    WritesOfAt([c], names, 0);
  }

  /**
   A category that does not qualify adds nothing, wherever it stands in the
   collection: the index is as if it were absent.
   */
  lemma SkippedCategoryAddsNothing(index: Index, a: seq<Category>, c: Category, b: seq<Category>, names: Names)
    requires AllResolvable(a + b, names) && !Qualifies(c)
    ensures AllResolvable(a + [c] + b, names)
    ensures InitCategories(index, a + [c] + b, names) == InitCategories(index, a + b, names)
  {
    WritesOfInsert(a, c, b, names);
    WritesOfConcat(a, b, names);
    IndexFold.ApplyAllSkipEmpty(index, WritesOf(a, names), WriteOf(c, names), WritesOf(b, names));
    InitCategoriesFold(index, a + [c] + b, names);
    InitCategoriesFold(index, a + b, names);
  }

  /** Some category of `cats` writes `k`. */
  predicate WrittenBy(cats: seq<Category>, names: Names, k: string)
    requires AllResolvable(cats, names)
  {
    exists i :: 0 <= i < |cats| && Writes(cats[i], names, k)
  }

  /** No category after position `i` writes `k`. */
  predicate NoLaterWriter(cats: seq<Category>, names: Names, i: nat, k: string)
    requires AllResolvable(cats, names)
  {
    forall j :: i < j < |cats| ==> !Writes(cats[j], names, k)
  }

  /** `v` is the id of a category of `cats` that writes `k` (only qualifying categories write). */
  predicate IdOfWriter(cats: seq<Category>, names: Names, k: string, v: nat)
    requires AllResolvable(cats, names)
  {
    exists i :: 0 <= i < |cats| && Writes(cats[i], names, k) && cats[i].id == v
  }

  lemma WrittenByWrites(cats: seq<Category>, names: Names, k: string)
    requires AllResolvable(cats, names)
    ensures WrittenBy(cats, names, k) <==> IndexFold.WrittenIn(WritesOf(cats, names), k)
  {
    var ws := WritesOf(cats, names);
    if WrittenBy(cats, names, k) {
      var i :| 0 <= i < |cats| && Writes(cats[i], names, k);
      WritesOfAt(cats, names, i);
      assert k in ws[i].keys;
    }
    if IndexFold.WrittenIn(ws, k) {
      var i :| 0 <= i < |ws| && k in ws[i].keys;
      WritesOfAt(cats, names, i);
      assert Writes(cats[i], names, k);
    }
  }

  /** The keys of the result are the keys before the call plus every key some category writes. */
  lemma {:induction false} InitCategoriesKeys(index: Index, cats: seq<Category>, names: Names, k: string)
    requires AllResolvable(cats, names)
    ensures k in InitCategories(index, cats, names) <==> k in index || WrittenBy(cats, names, k)
  {
    InitCategoriesFold(index, cats, names);
    WrittenByWrites(cats, names, k);
    IndexFold.ApplyAllKeys(index, WritesOf(cats, names), k);
  }

  /**
   Later wins: a key that category `i` writes and no later category writes
   maps to category `i`'s id.
   */
  lemma {:induction false} InitCategoriesLastWriter(index: Index, cats: seq<Category>, names: Names, i: nat, k: string)
    requires AllResolvable(cats, names)
    requires i < |cats| && Writes(cats[i], names, k)
    requires NoLaterWriter(cats, names, i, k)
    ensures k in InitCategories(index, cats, names)
    ensures InitCategories(index, cats, names)[k] == cats[i].id
  {
    InitCategoriesFold(index, cats, names);
    var ws := WritesOf(cats, names);
    WritesOfAt(cats, names, i);
    assert forall j :: i < j < |ws| ==> k !in ws[j].keys by {
      forall j | i < j < |ws| ensures k !in ws[j].keys {
        WritesOfAt(cats, names, j);
        assert !Writes(cats[j], names, k);
      }
    }
    IndexFold.ApplyAllLastWriter(index, ws, i, k);
  }

  /** A key no category writes keeps the value it had before the call, or stays absent. */
  lemma {:induction false} InitCategoriesUnwritten(index: Index, cats: seq<Category>, names: Names, k: string)
    requires AllResolvable(cats, names)
    requires forall j :: 0 <= j < |cats| ==> !Writes(cats[j], names, k)
    ensures k in InitCategories(index, cats, names) <==> k in index
    ensures k in index ==> InitCategories(index, cats, names)[k] == index[k]
  {
    InitCategoriesFold(index, cats, names);
    WrittenByWrites(cats, names, k);
    IndexFold.ApplyAllUnwritten(index, WritesOf(cats, names), k);
  }

  /**
   Every value of the result is either the value the key had before the
   call, when no category writes the key, or the id of a qualifying
   category that writes it.
   */
  lemma {:induction false} InitCategoriesValues(index: Index, cats: seq<Category>, names: Names, k: string)
    requires AllResolvable(cats, names)
    requires k in InitCategories(index, cats, names)
    ensures || (!WrittenBy(cats, names, k) && k in index && InitCategories(index, cats, names)[k] == index[k])
            || IdOfWriter(cats, names, k, InitCategories(index, cats, names)[k])
  {
    InitCategoriesFold(index, cats, names);
    var ws := WritesOf(cats, names);
    var v := InitCategories(index, cats, names)[k];
    WrittenByWrites(cats, names, k);
    IndexFold.ApplyAllValues(index, ws, k);
    if IndexFold.IdOfWriteIn(ws, k, v) {
      var i :| 0 <= i < |ws| && k in ws[i].keys && ws[i].id == v;
      WritesOfAt(cats, names, i);
      assert Writes(cats[i], names, k) && cats[i].id == v;
    }
  }

  /**
   When at least one category qualifies, the empty key maps to the id of
   the last qualifying category in iteration order.
   */
  lemma {:induction false} EmptyKeyIsLastQualifying(index: Index, cats: seq<Category>, names: Names, i: nat)
    requires AllResolvable(cats, names)
    requires i < |cats| && Qualifies(cats[i])
    requires forall j :: i < j < |cats| ==> !Qualifies(cats[j])
    ensures EmptyKey in InitCategories(index, cats, names)
    ensures InitCategories(index, cats, names)[EmptyKey] == cats[i].id
  {
    InitCategoriesLastWriter(index, cats, names, i, EmptyKey);
  }

  /**
   A qualifying category can be looked up by its full name path and by its
   name path below the store root; each maps to the category's id unless a
   later category writes the same key.
   */
  lemma {:induction false} NamePathLookup(index: Index, cats: seq<Category>, names: Names, i: nat, k: string)
    requires AllResolvable(cats, names)
    requires i < |cats| && Qualifies(cats[i])
    requires k == FullNamePath(cats[i], names) || k == StoreNamePath(cats[i], names)
    requires NoLaterWriter(cats, names, i, k)
    ensures k in InitCategories(index, cats, names)
    ensures InitCategories(index, cats, names)[k] == cats[i].id
  {
    InitCategoriesLastWriter(index, cats, names, i, k);
  }

  /** A qualifying category's own id, as a key, maps to that id unless a later category writes it. */
  lemma {:induction false} IdKeyLookup(index: Index, cats: seq<Category>, names: Names, i: nat)
    requires AllResolvable(cats, names)
    requires i < |cats| && Qualifies(cats[i])
    requires NoLaterWriter(cats, names, i, IdKey(cats[i]))
    ensures IdKey(cats[i]) in InitCategories(index, cats, names)
    ensures InitCategories(index, cats, names)[IdKey(cats[i])] == cats[i].id
  {
    InitCategoriesLastWriter(index, cats, names, i, IdKey(cats[i]));
  }
}
