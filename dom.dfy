/**
 * The toaster's container element, seen only through its children: each
 * child toast element has a DOM id and a text content.
 */
module Dom {
  import opened JsObject

  datatype Element = Element(id: string, text: string)

  /** Every key of `ks` has a text in `texts`. */
  ghost predicate Covers(ks: seq<string>, texts: map<string, string>) {
    forall i :: 0 <= i < |ks| ==> ks[i] in texts
  }

  /**
   * The children obtained by prepending one element per key, in key order,
   * to an empty container: the most recent key comes first.
   */
  function Render(ks: seq<string>, texts: map<string, string>): seq<Element>
    requires Covers(ks, texts)
  {
    if ks == [] then []
    else [Element(ks[|ks| - 1], texts[ks[|ks| - 1]])] + Render(ks[..|ks| - 1], texts)
  }

  /** `container.querySelector("#" + id).remove()`: the first child with that id goes; with none, nothing changes. */
  function RemoveFirst(cs: seq<Element>, id: string): seq<Element>
  {
    if cs == [] then []
    else if cs[0].id == id then cs[1..]
    else [cs[0]] + RemoveFirst(cs[1..], id)
  }

  /** Some child has this id. */
  predicate HasChild(cs: seq<Element>, id: string) {
    exists i :: 0 <= i < |cs| && cs[i].id == id
  }

  /**
   * The rendered children list the keys in reverse insertion order: child
   * `j` is the element of key `|ks| - 1 - j`, carrying that key's text, and
   * there is one child per key.
   */
  lemma {:induction false} RenderLayout(ks: seq<string>, texts: map<string, string>)
    requires Covers(ks, texts)
    ensures |Render(ks, texts)| == |ks|
    ensures forall j :: 0 <= j < |ks| ==>
      Render(ks, texts)[j] == Element(ks[|ks| - 1 - j], texts[ks[|ks| - 1 - j]])
  {
    if ks != [] {
      var init := ks[..|ks| - 1];
      RenderLayout(init, texts);
      forall j | 0 < j < |ks|
        ensures Render(ks, texts)[j] == Element(ks[|ks| - 1 - j], texts[ks[|ks| - 1 - j]])
      {
        assert Render(ks, texts)[j] == Render(init, texts)[j - 1];
        assert init[|init| - 1 - (j - 1)] == ks[|ks| - 1 - j];
      }
    }
  }

  /** Appending a key to the order prepends its element to the rendering. */
  lemma RenderAppend(ks: seq<string>, texts: map<string, string>, k: string)
    requires Covers(ks, texts) && k in texts
    ensures Covers(ks + [k], texts)
    ensures Render(ks + [k], texts) == [Element(k, texts[k])] + Render(ks, texts)
  {
    assert (ks + [k])[..|ks|] == ks;
  }

  /** The rendering depends only on the texts of the keys it shows. */
  lemma {:induction false} RenderFrame(ks: seq<string>, t1: map<string, string>, t2: map<string, string>)
    requires Covers(ks, t1) && Covers(ks, t2)
    requires forall i :: 0 <= i < |ks| ==> t1[ks[i]] == t2[ks[i]]
    ensures Render(ks, t1) == Render(ks, t2)
  {
    if ks != [] {
      RenderFrame(ks[..|ks| - 1], t1, t2);
    }
  }

  /** A key that is not in the order has no rendered child. */
  lemma {:induction false} RenderAbsent(ks: seq<string>, texts: map<string, string>, id: string)
    requires Covers(ks, texts) && id !in ks
    ensures !HasChild(Render(ks, texts), id)
  {
    RenderLayout(ks, texts);
  }

  /**
   * Removing a key from a duplicate-free key order and removing its element
   * from the rendering give the same children.
   */
  lemma {:induction false} RenderWithout(ks: seq<string>, texts: map<string, string>, id: string)
    requires Distinct(ks) && Covers(ks, texts)
    ensures Covers(Without(ks, id), texts)
    ensures Render(Without(ks, id), texts) == RemoveFirst(Render(ks, texts), id)
  {
    WithoutMembers(ks, id);
    if ks != [] {
      var init, last := ks[..|ks| - 1], ks[|ks| - 1];
      DistinctInit(ks);
      var rest := Render(init, texts);
      assert Render(ks, texts) == [Element(last, texts[last])] + rest;
      assert RemoveFirst([Element(last, texts[last])] + rest, id)
          == if last == id then rest else [Element(last, texts[last])] + RemoveFirst(rest, id);
      if last == id {
        WithoutAbsent(init, id);
        assert Without(ks, id) == Without(init, id) + [];
        assert Without(ks, id) == init;
        assert RemoveFirst(Render(ks, texts), id) == rest;
      } else {
        var w := Without(init, id);
        WithoutMembers(init, id);
        RenderWithout(init, texts, id);
        assert Without(ks, id) == w + [last];
        RenderAppend(w, texts, last);
      }
    }
  }

  /** Without an element of that id, removal changes nothing. */
  lemma {:induction false} RemoveFirstAbsent(cs: seq<Element>, id: string)
    requires !HasChild(cs, id)
    ensures RemoveFirst(cs, id) == cs
  {
    if cs != [] {
      assert !HasChild(cs[1..], id) by {
        forall i | 0 <= i < |cs[1..]| ensures cs[1..][i].id != id {
          assert cs[1..][i] == cs[i + 1];
        }
      }
      RemoveFirstAbsent(cs[1..], id);
    }
  }

  /** Removal splices out exactly the first child that has the id. */
  lemma {:induction false} RemoveFirstAt(cs: seq<Element>, id: string, i: nat)
    requires i < |cs| && cs[i].id == id
    requires forall j :: 0 <= j < i ==> cs[j].id != id
    ensures RemoveFirst(cs, id) == cs[..i] + cs[i + 1..]
  {
    if i > 0 {
      RemoveFirstAt(cs[1..], id, i - 1);
      assert cs[..i] == [cs[0]] + cs[1..][..i - 1];
    }
  }
}
