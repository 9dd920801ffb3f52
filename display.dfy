/** `field_image`: the profile-page rendering of an image field's value (image.php:207-212). */
module Display {

  const ImageTagOpen := "<img class=\"img-responsive img-thumbnail\" src=\""
  const ImageTagClose := "\" />"

  /** PHP's `empty()` on a string: the empty string and "0". */
  predicate IsEmpty(value: string) {
    value == "" || value == "0"
  }

  /**
   * A thumbnail tag whose `src` is the value, or "-" for an empty value; the value can be read
   * back from between the tag's fixed opening and closing text.
   */
  function FieldImage(value: string): (html: string)
    ensures html == "-" <==> IsEmpty(value)
    ensures !IsEmpty(value) ==>
              |html| == |ImageTagOpen| + |value| + |ImageTagClose| &&
              html[..|ImageTagOpen|] == ImageTagOpen &&
              html[|ImageTagOpen|..|html| - |ImageTagClose|] == value
  {
    if !IsEmpty(value) then ImageTagOpen + value + ImageTagClose else "-"
  }
}
