/**
 * The hexadecimal colour field of src/widgets/ColorPicker.js: what the field shows when
 * the picker opens, how it follows the colour passed in, and how typed text is cleaned
 * and turned into a colour.
 */
module ColorPicker {

  import opened Grids

  /** What the picker holds: the colour it shows and the text of the hex field. */
  datatype PickerState = PickerState(currentColor: string, hexInput: string)

  predicate IsHexDigit(c: char)
  {
    '0' <= c <= '9' || 'A' <= c <= 'F' || 'a' <= c <= 'f'
  }

  predicate AllHex(s: string)
  {
    forall k :: 0 <= k < |s| ==> IsHexDigit(s[k])
  }

  /** The test `/^[0-9A-Fa-f]{6}$/`: exactly six hexadecimal digits. */
  predicate IsSixHex(s: string)
  {
    |s| == 6 && AllHex(s)
  }

  /**
   * `text.replace(/[^0-9A-Fa-f]/g, '')`: the hexadecimal digits of the text, in order.
   * The result has only hex digits and is never longer than the text.
   */
  function CleanHex(text: string): (r: string)
    ensures AllHex(r) && |r| <= |text|
  {
    if text == [] then []
    else if IsHexDigit(text[0]) then [text[0]] + CleanHex(text[1..])
    else CleanHex(text[1..])
  }

  /**
   * `s.replace('#', '')`: a string pattern, so only the first `#` goes. Specified by
   * `StripNoHash` and `StripFirst` below.
   */
  function StripFirstHash(s: string): (r: string)
    ensures |r| == if '#' in s then |s| - 1 else |s|
  {
    if s == [] then []
    else if s[0] == '#' then s[1..]
    else [s[0]] + StripFirstHash(s[1..])
  }

  /**
   * The state when the picker opens (lines 17-18). `color` is None when the prop is
   * missing; an empty colour falls back like a missing one. The field holds the colour
   * without its first `#`, and `000000` when that would be empty.
   */
  function Init(color: Option<string>): (st: PickerState)
    ensures color.None? || color.value == [] ==> st == PickerState("#000000", "000000")
    ensures color.Some? && color.value != [] ==> st.currentColor == color.value
    ensures color.Some? && StripFirstHash(color.value) != [] ==> st.hexInput == StripFirstHash(color.value)
    ensures color.Some? && StripFirstHash(color.value) == [] ==> st.hexInput == "000000"
    ensures st.hexInput != []
  {
    var current := if color.Some? && color.value != [] then color.value else "#000000";
    var stripped := if color.Some? then StripFirstHash(color.value) else [];
    PickerState(current, if stripped != [] then stripped else "000000")
  }

  /**
   * The effect that follows the `color` prop (lines 31-36): a non-empty colour replaces
   * both the shown colour and the field; a missing or empty one changes nothing.
   */
  function Sync(st: PickerState, color: Option<string>): (r: PickerState)
    ensures color.None? || color.value == [] ==> r == st
    ensures color.Some? && color.value != [] ==> r.currentColor == color.value
    ensures color.Some? && color.value != [] ==> r.hexInput == StripFirstHash(color.value)
  {
    if color.Some? && color.value != [] then PickerState(color.value, StripFirstHash(color.value))
    else st
  }

  /**
   * `handleHexChange` (lines 45-56): the field takes the cleaned text whatever it is;
   * when that is six hex digits the colour becomes `#` and the digits and is passed to
   * `onColorChange`, which the second component reports.
   */
  function HexChange(st: PickerState, text: string): (r: (PickerState, Option<string>))
    ensures r.0.hexInput == CleanHex(text)
  {
    var clean := CleanHex(text);
    if IsSixHex(clean) then (PickerState("#" + clean, clean), Some("#" + clean))
    else (PickerState(st.currentColor, clean), None)
  }

  /**
   * Opening the picker: the initial state, then the effect on the `color` prop, which
   * also runs once after mounting. A non-empty colour leaves the field holding the colour
   * without its first `#`, even when that is empty, as for the colour `#`; the fallback
   * `000000` survives only for a missing or empty colour.
   */
  function Mount(color: Option<string>): (st: PickerState)
    ensures color.None? || color.value == [] ==> st == PickerState("#000000", "000000")
    ensures color.Some? && color.value != [] ==>
      st == PickerState(color.value, StripFirstHash(color.value))
  {
    Sync(Init(color), color)
  }

  /** Mounted with the colour `#`, the picker shows `#` and an empty field. */
  lemma MountLoneHash()
    ensures Mount(Some("#")) == PickerState("#", "")
  {
    StripFirst([], []);
    assert [] + "#" + [] == "#";
  }

  /** Cleaning works character by character: it distributes over concatenation. */
  lemma {:induction false} CleanAppend(a: string, b: string)
    ensures CleanHex(a + b) == CleanHex(a) + CleanHex(b)
    decreases |a|
  {
    if a == [] {
      assert a + b == b;
    } else {
      assert (a + b)[1..] == a[1..] + b;
      CleanAppend(a[1..], b);
    }
  }

  /** A hex digit is kept and any other character is dropped. */
  lemma CleanOne(c: char)
    ensures CleanHex([c]) == if IsHexDigit(c) then [c] else []
  {
  }

  /** Text of hex digits is left as it is, and only such text is. */
  lemma {:induction false} CleanFixesHex(s: string)
    ensures CleanHex(s) == s <==> AllHex(s)
    decreases |s|
  {
    if s != [] {
      CleanFixesHex(s[1..]);
    }
  }

  /** Cleaning twice is cleaning once. */
  lemma CleanIdempotent(text: string)
    ensures CleanHex(CleanHex(text)) == CleanHex(text)
  {
    CleanFixesHex(CleanHex(text));
  }

  /** Text without `#` is left as it is. */
  lemma {:induction false} StripNoHash(s: string)
    requires '#' !in s
    ensures StripFirstHash(s) == s
    decreases |s|
  {
    if s != [] {
      assert s[0] != '#' && s == [s[0]] + s[1..];
      assert '#' !in s[1..] by {
        forall k | 0 <= k < |s[1..]| ensures s[1..][k] != '#' {
          assert s[1..][k] == s[k + 1];
        }
      }
      StripNoHash(s[1..]);
    }
  }

  /** The first `#` is removed and everything around it kept. */
  lemma {:induction false} StripFirst(a: string, b: string)
    requires '#' !in a
    ensures StripFirstHash(a + "#" + b) == a + b
    decreases |a|
  {
    if a == [] {
      assert a + "#" + b == "#" + b;
    } else {
      var rest := a[1..] + "#" + b;
      assert '#' !in a[1..] by {
        assert a == [a[0]] + a[1..];
      }
      StripFirst(a[1..], b);
      calc {
        StripFirstHash(a + "#" + b);
        { assert a + "#" + b == [a[0]] + rest; }
        StripFirstHash([a[0]] + rest);
        { StripCons(a[0], rest); }
        [a[0]] + StripFirstHash(rest);
        [a[0]] + (a[1..] + b);
        { assert a == [a[0]] + a[1..]; }
        a + b;
      }
    }
  }

  /** A character other than `#` in front is kept, and the rest is stripped. */
  lemma StripCons(c: char, s: string)
    requires c != '#'
    ensures StripFirstHash([c] + s) == [c] + StripFirstHash(s)
  {
    assert ([c] + s)[0] == c && ([c] + s)[1..] == s;
  }

  /**
   * A colour is reported exactly when the cleaned text is six hex digits; it is then `#`
   * followed by the cleaned text, seven characters, and becomes the shown colour.
   * Otherwise the shown colour stays.
   */
  lemma EmitsIffSixHex(st: PickerState, text: string)
    ensures HexChange(st, text).1.Some? <==> |CleanHex(text)| == 6
    ensures HexChange(st, text).1.Some? ==>
      HexChange(st, text).1.value == "#" + CleanHex(text) &&
      |HexChange(st, text).1.value| == 7 &&
      HexChange(st, text).0.currentColor == HexChange(st, text).1.value
    ensures HexChange(st, text).1.None? ==> HexChange(st, text).0.currentColor == st.currentColor
  {
  }

  /**
   * Typing six hex digits reports `#` and those digits, and feeding that colour back in
   * through the prop puts the same six digits in the field again.
   */
  lemma HexRoundTrip(st: PickerState, s: string)
    requires IsSixHex(s)
    ensures HexChange(st, s).1 == Some("#" + s)
    ensures Sync(HexChange(st, s).0, Some("#" + s)) == PickerState("#" + s, s)
  {
    CleanFixesHex(s);
    StripFirst([], s);
    assert [] + "#" + s == "#" + s && [] + s == s;
  }

  /** A colour `#` plus six hex digits, synced in, leaves a field that passes the test. */
  lemma SyncedFieldValid(st: PickerState, s: string)
    requires IsSixHex(s)
    ensures IsSixHex(Sync(st, Some("#" + s)).hexInput)
  {
    StripFirst([], s);
    assert [] + "#" + s == "#" + s && [] + s == s;
  }

  /** The swatches offered by the picker (lines 24-28). */
  const CommonColors: seq<string> := [
    "#000000", "#FFFFFF", "#FF0000", "#00FF00", "#0000FF",
    "#FFFF00", "#FF00FF", "#00FFFF", "#FFA500", "#800080",
    "#008000", "#A52A2A", "#808080", "#C0C0C0", "#FFC0CB"]

  /** Every swatch is `#` and six hex digits, so the field it leaves passes the test. */
  lemma {:induction false} CommonColorsWellFormed(k: nat)
    requires k < |CommonColors|
    ensures |CommonColors[k]| == 7 && CommonColors[k][0] == '#'
    ensures IsSixHex(CommonColors[k][1..])
    ensures IsSixHex(Sync(PickerState("#000000", "000000"), Some(CommonColors[k])).hexInput)
  {
    var c := CommonColors[k];
    assert c == "#" + c[1..];
    assert IsSixHex(c[1..]);
    SyncedFieldValid(PickerState("#000000", "000000"), c[1..]);
  }
}
