/** The item-name translator: a fixed table of Japanese item names and their
    English names, applied to the user's question by repeated `str.replace`. */
module Translator {
  import opened Text

  /** The item table, in the dictionary's insertion order (which is the order
      Python iterates it in). */
  const ItemTranslation: seq<(string, string)> := [
    ("キーボード", "Keyboard"),
    ("マウス", "Mouse"),
    ("ノートパソコン", "Laptop"),
    ("タブレット", "Tablet"),
    ("モニター", "Monitor"),
    ("電話", "Phone")
  ]

  /** The text after replacing, in table order, every occurrence of each key by
      its value: the left fold of `Replace` over the entries. */
  function Translated(s: string, table: seq<(string, string)>): (r: string)
    decreases |table|
  {
    if table == [] then s
    else
      var last := table[|table| - 1];
      Replace(Translated(s, table[..|table| - 1]), last.0, last.1)
  }

  /** Every key and value is non-empty, and no character of any key occurs in
      any value, so that no replacement can rebuild a key. */
  predicate Separated(table: seq<(string, string)>)
  {
    (forall i :: 0 <= i < |table| ==> table[i].0 != [] && table[i].1 != []) &&
    (forall i, j :: 0 <= i < |table| && 0 <= j < |table| ==> Disjoint(table[i].0, table[j].1))
  }

  predicate Ascii(s: string)
  {
    forall c :: c in s ==> c <= '\U{7F}'
  }

  /** The item table is separated: its keys are written in Japanese script and
      its values in ASCII letters. */
  lemma TableSeparated()
    ensures Separated(ItemTranslation)
  {
    var t := ItemTranslation;
    assert forall i :: 0 <= i < |t| ==> Ascii(t[i].1);
    assert forall i :: 0 <= i < |t| ==> forall c :: c in t[i].0 ==> c > '\U{7F}';
  }

  /** Translating with the entries of `a` and then with those of `b` is
      translating with `a + b`: the entries act one after another, in order. */
  lemma {:induction false} TranslatedConcat(s: string, a: seq<(string, string)>, b: seq<(string, string)>)
    ensures Translated(s, a + b) == Translated(Translated(s, a), b)
    decreases |b|
  {
    if b == [] {
      assert a + b == a;
    } else {
      var b' := b[..|b| - 1];
      assert (a + b)[..|a + b| - 1] == a + b';
      assert (a + b)[|a + b| - 1] == b[|b| - 1];
      TranslatedConcat(s, a, b');
    }
  }

  /** After translating with a separated table, no key of the table occurs in
      the text. */
  lemma {:induction false} TranslatedRemovesKeys(s: string, table: seq<(string, string)>)
    requires Separated(table)
    ensures forall j :: 0 <= j < |table| ==> !Contains(Translated(s, table), table[j].0)
    decreases |table|
  {
    if table != [] {
      var n := |table| - 1;
      var front := table[..n];
      assert Separated(front);
      TranslatedRemovesKeys(s, front);
      var before := Translated(s, front);
      forall j | 0 <= j < |table|
        ensures !Contains(Translated(s, table), table[j].0)
      {
        if j < n {
          assert table[j] == front[j];
          ReplaceAddsNothing(before, table[n].0, table[n].1, table[j].0);
        } else {
          ReplaceRemoves(before, table[n].0, table[n].1);
        }
      }
    }
  }

  /** A text in which no key occurs comes back unchanged. */
  lemma {:induction false} TranslatedAbsent(s: string, table: seq<(string, string)>)
    requires forall j :: 0 <= j < |table| ==> table[j].0 != [] && !Contains(s, table[j].0)
    ensures Translated(s, table) == s
    decreases |table|
  {
    if table != [] {
      var n := |table| - 1;
      TranslatedAbsent(s, table[..n]);
      ReplaceAbsent(s, table[n].0, table[n].1);
    }
  }

  /** No key can overlap a key that comes later in the table. */
  predicate KeysApart(table: seq<(string, string)>)
  {
    forall j, i :: 0 <= j < i < |table| ==> Apart(table[j].0, table[i].0)
  }

  /** In the item table no key overlaps a later one.  Most pairs of keys do not
      even hold each other's first character; the exception is タブレット
      before モニター, whose タ is not followed by the rest of タブレット. */
  lemma TableKeysApart()
    ensures KeysApart(ItemTranslation)
  {
    var t := ItemTranslation;
    forall j, i | 0 <= j < i < |t| ensures Apart(t[j].0, t[i].0) {
      if j == 3 && i == 4 {
        var p, w := t[3].0, t[4].0;
        forall k | 0 <= k < |w| ensures !Compatible(p, w[k..]) {
          assert w[k..][0] == w[k];
          if k == 2 {
            assert w[k..][1] == 'ー' && p[1] == 'ブ';
          }
        }
        forall k | 0 < k < |p| ensures !Compatible(w, p[k..]) {
          assert p[k..][0] == p[k];
        }
      } else {
        HeadsApart(t[j].0, t[i].0);
      }
    }
  }

  /** An occurrence of `w` that no key of `table` can overlap survives the
      translation. */
  lemma {:induction false} TranslatedKeeps(s: string, table: seq<(string, string)>, w: string)
    requires w != []
    requires forall j :: 0 <= j < |table| ==> table[j].0 != [] && Apart(table[j].0, w)
    ensures Contains(s, w) ==> Contains(Translated(s, table), w)
    decreases |table|
  {
    if table != [] {
      var n := |table| - 1;
      TranslatedKeeps(s, table[..n], w);
      ReplaceKeeps(Translated(s, table[..n]), table[n].0, table[n].1, w);
    }
  }

  /** If the text contains a key of a separated table whose keys do not
      overlap, the translation contains that key's value. */
  lemma TranslatedShowsValue(s: string, table: seq<(string, string)>, i: nat)
    requires Separated(table) && KeysApart(table) && i < |table|
    ensures Contains(s, table[i].0) ==> Contains(Translated(s, table), table[i].1)
  {
    var front, back := table[..i], table[i + 1..];
    assert table == front + [table[i]] + back;
    TranslatedConcat(s, front + [table[i]], back);
    TranslatedConcat(s, front, [table[i]]);
    assert [table[i]][..0] == [];
    TranslatedKeeps(s, front, table[i].0);
    var x := Translated(s, front);
    forall j | 0 <= j < |back| ensures back[j].0 != [] && Apart(back[j].0, table[i].1) {
      assert back[j] == table[i + 1 + j];
      DisjointApart(back[j].0, table[i].1);
    }
    if Contains(s, table[i].0) {
      ReplaceInserts(x, table[i].0, table[i].1);
      TranslatedKeeps(Replace(x, table[i].0, table[i].1), back, table[i].1);
    }
  }

  /** `translate_items`: reassign the query once per table entry. */
  method TranslateItems(query: string) returns (r: string)
    ensures r == Translated(query, ItemTranslation)
    ensures forall j :: 0 <= j < |ItemTranslation| ==> !Contains(r, ItemTranslation[j].0)
    ensures (forall j :: 0 <= j < |ItemTranslation| ==> !Contains(query, ItemTranslation[j].0)) ==> r == query
    ensures forall j :: 0 <= j < |ItemTranslation| && Contains(query, ItemTranslation[j].0) ==>
              Contains(r, ItemTranslation[j].1)
  {
    r := query;
    for i := 0 to |ItemTranslation|
      invariant r == Translated(query, ItemTranslation[..i])
    {
      var (jp, en) := ItemTranslation[i];
      assert ItemTranslation[..i + 1][..i] == ItemTranslation[..i];
      r := Replace(r, jp, en);
    }
    assert ItemTranslation[..|ItemTranslation|] == ItemTranslation;
    TableSeparated();
    TranslatedRemovesKeys(query, ItemTranslation);
    if forall j :: 0 <= j < |ItemTranslation| ==> !Contains(query, ItemTranslation[j].0) {
      TranslatedAbsent(query, ItemTranslation);
    }
    TableKeysApart();
    forall j | 0 <= j < |ItemTranslation| && Contains(query, ItemTranslation[j].0)
      ensures Contains(r, ItemTranslation[j].1)
    {
      TranslatedShowsValue(query, ItemTranslation, j);
    }
  }
}
