/**
 * The `Images` table: items keyed by their `ImageName` attribute, each item a
 * map from attribute name to string value. The three store operations the
 * handlers use are a whole-item put, a delete by key and an attribute-level
 * `SET`.
 */
module Catalog {

  type Item = map<string, string>
  type Table = map<string, Item>

  /** The table's partition key attribute. */
  const ImageName: string := "ImageName"

  /** Every item carries its own key under `ImageName`. */
  predicate WellFormed(t: Table) {
    forall k :: k in t ==> ImageName in t[k] && t[k][ImageName] == k
  }

  /** `PutCommand`: the item replaces whatever was stored under its key. */
  function PutItem(t: Table, item: Item): (r: Table)
    requires ImageName in item
    ensures item[ImageName] in r && r[item[ImageName]] == item
    ensures forall k :: k != item[ImageName] ==> (k in r <==> k in t)
    ensures forall k :: k != item[ImageName] && k in t ==> r[k] == t[k]
  {
    t[item[ImageName] := item]
  }

  /** `DeleteCommand`: the key is gone afterwards whether or not it was there. */
  function DeleteItem(t: Table, key: string): (r: Table)
    ensures key !in r
    ensures forall k :: k != key ==> (k in r <==> k in t)
    ensures forall k :: k != key && k in t ==> r[k] == t[k]
  {
    t - {key}
  }

  /**
   * `UpdateItemCommand` with `SET #attr = :value`: only that cell changes;
   * a missing item is created holding just its key and the new attribute.
   */
  function SetAttribute(t: Table, key: string, attr: string, value: string): (r: Table)
    ensures key in r && attr in r[key] && r[key][attr] == value
    ensures key !in t && attr != ImageName ==> r[key] == map[ImageName := key, attr := value]
    ensures key in t ==> forall a :: a != attr ==> (a in r[key] <==> a in t[key])
    ensures key in t ==> forall a :: a != attr && a in t[key] ==> r[key][a] == t[key][a]
    ensures forall k :: k != key ==> (k in r <==> k in t)
    ensures forall k :: k != key && k in t ==> r[k] == t[k]
  {
    var item := if key in t then t[key] else map[ImageName := key];
    t[key := item[attr := value]]
  }

  lemma PutKeepsWellFormed(t: Table, item: Item)
    requires WellFormed(t) && ImageName in item
    ensures WellFormed(PutItem(t, item))
  {
  }

  lemma SetKeepsWellFormed(t: Table, key: string, attr: string, value: string)
    requires attr != ImageName
    ensures WellFormed(t) ==> WellFormed(SetAttribute(t, key, attr, value))
  {
  }

  /** The table as the handlers see it through the DynamoDB client. */
  class ImagesTable {
    var items: Table

    ghost predicate Valid()
      reads this
    {
      WellFormed(items)
    }

    constructor (initial: Table)
      requires WellFormed(initial)
      ensures Valid() && items == initial
    {
      items := initial;
    }

    method Put(item: Item)
      requires Valid() && ImageName in item
      modifies this
      ensures Valid()
      ensures items == PutItem(old(items), item)
    {
      items := items[item[ImageName] := item];
    }

    method Delete(key: string)
      requires Valid()
      modifies this
      ensures Valid()
      ensures items == DeleteItem(old(items), key)
    {
      items := items - {key};
    }

    /** The key attribute itself cannot be the target of a `SET`. */
    method Update(key: string, attr: string, value: string)
      requires Valid() && attr != ImageName
      modifies this
      ensures Valid()
      ensures items == SetAttribute(old(items), key, attr, value)
    {
      var item := if key in items then items[key] else map[ImageName := key];
      items := items[key := item[attr := value]];
    }
  }
}
