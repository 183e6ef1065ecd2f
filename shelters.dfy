/**
 * Shelter records as the shelter dataset gives them, and the barrier-free
 * list of the shelter popup (the `click` handler in src/main.ts).
 */
module Shelters {
  import opened Options
  import opened GeoJson

  /**
   * A shelter: facility name, address, point coordinates and the five
   * barrier-free attributes, each the mark "○" or another string, or null.
   */
  datatype Shelter = Shelter(
    name: string,
    address: string,
    coordinates: Position,
    elevator: Option<string>,
    slope: Option<string>,
    braille: Option<string>,
    toilet: Option<string>,
    other: Option<string>)

  /** The barrier-free attributes, in the order the popup lists them. */
  datatype Facility = Elevator | Slope | BrailleBlocks | AccessibleToilet | OtherFacility

  const Facilities: seq<Facility> := [Elevator, Slope, BrailleBlocks, AccessibleToilet, OtherFacility]

  /** The mark the dataset records in a barrier-free attribute. */
  const Present := "○"

  /** The text shown when no attribute carries the mark. */
  const NoneItem := "<li>なし</li>"

  const ElevatorItem := "<li>エレベーター有り/避難スペースが1階</li>"
  const SlopeItem := "<li>スロープ等有り</li>"
  const BrailleItem := "<li>点字ブロック有り</li>"
  const ToiletItem := "<li>車椅子使用者対応トイレ有り</li>"

  function Mark(s: Shelter, f: Facility): Option<string> {
    match f
    case Elevator => s.elevator
    case Slope => s.slope
    case BrailleBlocks => s.braille
    case AccessibleToilet => s.toilet
    case OtherFacility => s.other
  }

  /** The list item shown for an attribute; the last one shows the attribute's own value. */
  function Item(s: Shelter, f: Facility): string {
    match f
    case Elevator => ElevatorItem
    case Slope => SlopeItem
    case BrailleBlocks => BrailleItem
    case AccessibleToilet => ToiletItem
    case OtherFacility => "<li>" + (match s.other case Some(v) => v case None => "") + "</li>"
  }

  /** The items of the attributes among `fs` that carry the mark, in the order of `fs`. */
  function ListedItems(s: Shelter, fs: seq<Facility>): seq<string> {
    if fs == [] then []
    else (if Mark(s, fs[0]) == Some(Present) then [Item(s, fs[0])] else []) + ListedItems(s, fs[1..])
  }

  function Concat(items: seq<string>): string {
    if items == [] then "" else items[0] + Concat(items[1..])
  }

  /** Concatenating list items gives the empty string only when there are none. */
  lemma {:induction false} ConcatEmpty(s: Shelter, fs: seq<Facility>)
    ensures Concat(ListedItems(s, fs)) == "" <==> ListedItems(s, fs) == []
  {
    if fs != [] {
      ConcatEmpty(s, fs[1..]);
      var items := ListedItems(s, fs);
      if items != [] {
        assert |items[0]| > 0 || items == ListedItems(s, fs[1..]);
      }
    }
  }

  /**
   * The barrier-free list: the items of the marked attributes in their
   * fixed order, or the single "なし" item when none is marked.
   */
  method BarrierFreeList(s: Shelter) returns (html: string)
    ensures var items := ListedItems(s, Facilities);
            html == if items == [] then NoneItem else Concat(items)
  {
    html := "";
    if s.elevator == Some(Present) { html := html + ElevatorItem; }
    assert html == Part(s, Elevator);
    if s.slope == Some(Present) { html := html + SlopeItem; }
    assert html == Part(s, Elevator) + Part(s, Slope);
    if s.braille == Some(Present) { html := html + BrailleItem; }
    assert html == Part(s, Elevator) + Part(s, Slope) + Part(s, BrailleBlocks);
    if s.toilet == Some(Present) { html := html + ToiletItem; }
    assert html == Part(s, Elevator) + Part(s, Slope) + Part(s, BrailleBlocks) + Part(s, AccessibleToilet);
    if s.other == Some(Present) { html := html + ("<li>" + s.other.value + "</li>"); }
    assert html == Part(s, Elevator) + Part(s, Slope) + Part(s, BrailleBlocks) + Part(s, AccessibleToilet)
                 + Part(s, OtherFacility);
    ListedConcat(s);
    ConcatEmpty(s, Facilities);
    if html == "" { html := NoneItem; }
  }

  /** What an attribute adds to the list: its item when it is marked, nothing otherwise. */
  function Part(s: Shelter, f: Facility): string {
    if Mark(s, f) == Some(Present) then Item(s, f) else ""
  }

  /** The list of all attributes is the parts of the five attributes one after the other. */
  lemma ListedConcat(s: Shelter)
    ensures Concat(ListedItems(s, Facilities))
         == Part(s, Elevator) + Part(s, Slope) + Part(s, BrailleBlocks) + Part(s, AccessibleToilet)
            + Part(s, OtherFacility)
  {
    assert Facilities[..0] == [];
    PrefixStep(s, 0);
    PrefixStep(s, 1);
    PrefixStep(s, 2);
    PrefixStep(s, 3);
    PrefixStep(s, 4);
    assert Facilities[..5] == Facilities;
  }

  lemma PrefixStep(s: Shelter, k: nat)
    requires k < |Facilities|
    ensures Concat(ListedItems(s, Facilities[..k + 1])) == Concat(ListedItems(s, Facilities[..k])) + Part(s, Facilities[k])
  {
    assert Facilities[..k + 1] == Facilities[..k] + [Facilities[k]];
    ListedStep(s, Facilities[..k], Facilities[k]);
  }

  /** One attribute further along the list: the text grows by that attribute's item when it is marked. */
  lemma ListedStep(s: Shelter, done: seq<Facility>, f: Facility)
    ensures Concat(ListedItems(s, done + [f])) == Concat(ListedItems(s, done)) + Part(s, f)
  {
    ListedAppend(s, done, [f]);
    assert [f][1..] == [];
    ConcatAppend(ListedItems(s, done), ListedItems(s, [f]));
  }

  lemma {:induction false} ListedAppend(s: Shelter, a: seq<Facility>, b: seq<Facility>)
    ensures ListedItems(s, a + b) == ListedItems(s, a) + ListedItems(s, b)
  {
    if a == [] {
      assert a + b == b;
    } else {
      assert (a + b)[0] == a[0];
      assert (a + b)[1..] == a[1..] + b;
      ListedAppend(s, a[1..], b);
    }
  }

  lemma {:induction false} ConcatAppend(a: seq<string>, b: seq<string>)
    ensures Concat(a + b) == Concat(a) + Concat(b)
  {
    if a == [] {
      assert a + b == b;
    } else {
      assert (a + b)[0] == a[0];
      assert (a + b)[1..] == a[1..] + b;
      ConcatAppend(a[1..], b);
      assert Concat(a + b) == a[0] + (Concat(a[1..]) + Concat(b));
    }
  }

  /** "なし" is shown exactly when no attribute carries the mark. */
  lemma {:induction false} NothingListed(s: Shelter, fs: seq<Facility>)
    ensures ListedItems(s, fs) == [] <==> forall i :: 0 <= i < |fs| ==> Mark(s, fs[i]) != Some(Present)
  {
    if fs != [] {
      NothingListed(s, fs[1..]);
      assert forall i :: 1 <= i < |fs| ==> fs[i] == fs[1..][i - 1];
      assert Mark(s, fs[0]) == Some(Present) ==> |ListedItems(s, fs)| > 0;
    }
  }

  /** Every marked attribute has its item in the list, and every item comes from a marked attribute. */
  lemma {:induction false} ListedExactly(s: Shelter, fs: seq<Facility>)
    ensures forall f :: f in fs && Mark(s, f) == Some(Present) ==> Item(s, f) in ListedItems(s, fs)
    ensures forall t :: t in ListedItems(s, fs) ==> exists f :: f in fs && Mark(s, f) == Some(Present) && Item(s, f) == t
  {
    if fs != [] {
      ListedExactly(s, fs[1..]);
      forall t | t in ListedItems(s, fs)
        ensures exists f :: f in fs && Mark(s, f) == Some(Present) && Item(s, f) == t
      {
        if t !in ListedItems(s, fs[1..]) {
          assert Item(s, fs[0]) == t;
        } else {
          var f :| f in fs[1..] && Mark(s, f) == Some(Present) && Item(s, f) == t;
          assert f in fs;
        }
      }
    }
  }

  /**
   * The item of the last attribute can only ever show the mark itself,
   * since it is listed only when its value is "○".
   */
  lemma OtherItemShowsMark(s: Shelter)
    requires Mark(s, OtherFacility) == Some(Present)
    ensures Item(s, OtherFacility) == "<li>○</li>"
  {
  }
}
