/**
 * The delivery reason of an insulin record, read from the metadata entries
 * nested inside it.
 */
module Insulin {

  import opened Wrappers

  /** Why insulin was delivered: a mealtime bolus or background basal. */
  datatype Reason = Bolus | Basal

  /**
   * One element met while walking the record and everything nested in it,
   * in document order: its tag and its `key` and `value` attributes, when
   * present.
   */
  datatype Element = Element(tag: string, key: Option<string>, value: Option<string>)

  /** Whether `part` occurs in `s` as a contiguous piece. */
  function Contains(s: string, part: string): bool
  {
    if |s| < |part| then false
    else s[..|part|] == part || Contains(s[1..], part)
  }

  /** `part` occurs in `s` starting at position `i`. */
  ghost predicate OccursAt(s: string, part: string, i: int)
  {
    0 <= i <= |s| - |part| && s[i..i + |part|] == part
  }

  /** `Contains` finds `part` exactly when it occurs at some position of `s`. */
  lemma {:induction false} ContainsAt(s: string, part: string)
    ensures Contains(s, part) <==> exists i :: OccursAt(s, part, i)
  {
    if |s| >= |part| {
      if s[..|part|] == part {
        assert OccursAt(s, part, 0);
      } else {
        ContainsAt(s[1..], part);
        if Contains(s[1..], part) {
          var i :| OccursAt(s[1..], part, i);
          assert OccursAt(s, part, i + 1);
        }
        if exists i :: OccursAt(s, part, i) {
          var i :| OccursAt(s, part, i);
          assert i != 0;
          assert OccursAt(s[1..], part, i - 1);
        }
      }
    }
  }

  /** An element that marks the record as basal insulin. */
  predicate MarksBasal(e: Element)
  {
    Contains(e.tag, "MetadataEntry") && e.key == Some("HKInsulinDeliveryReason") && e.value == Some("1")
  }

  /**
   * Scans the elements of one insulin record: the reason is bolus unless some
   * metadata entry says the delivery reason is 1, which means basal.
   */
  method DeliveryReason(elements: seq<Element>) returns (reason: Reason)
    ensures reason == Basal <==> exists i :: 0 <= i < |elements| && MarksBasal(elements[i])
  {
    reason := Bolus;
    for i := 0 to |elements|
      invariant reason == Basal <==> exists k :: 0 <= k < i && MarksBasal(elements[k])
    {
      var meta := elements[i];
      if Contains(meta.tag, "MetadataEntry") {
        if meta.key == Some("HKInsulinDeliveryReason") {
          if meta.value == Some("1") {
            reason := Basal;
          }
        }
      }
    }
  }

  /** A record whose delivery-reason entry is in a namespaced tag is still basal. */
  lemma NamespacedTagExample()
    ensures MarksBasal(Element("{ns}MetadataEntry", Some("HKInsulinDeliveryReason"), Some("1")))
    ensures !MarksBasal(Element("MetadataEntry", Some("HKInsulinDeliveryReason"), Some("2")))
  {
    var tag := "{ns}MetadataEntry";
    assert tag[4..][..13] == "MetadataEntry";
  }

}
