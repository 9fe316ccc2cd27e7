/** The published stories page (src/app/experiences/page.tsx): how one
    story becomes a card. */
module Experiences {
  import opened Wrappers
  import opened Strings
  import TextRepair

  /** A story row; the nullable columns are `None` for null. */
  datatype StoryRow = StoryRow(name: string, title: string, content: string,
                               imageUrl: Option<string>, location: Option<string>, year: Option<string>)

  const Separator: string := " | "
  const Placeholder: string := "/placeholder.jpg"
  const DefaultAlt: string := "Experience photo"

  /** The year/location line from the cleaned year and location. */
  function Meta(year: string, location: string): (m: string)
    ensures location == "" ==> m == year
    ensures location != "" ==> m == year + Separator + location
  {
    (if year != "" then year else "") + (if location != "" then Separator + location else "")
  }

  /** What the card shows on the meta line: an empty line is drawn as a
      single space so the row keeps its height. */
  function MetaLine(m: string): (t: string)
    ensures t != ""
    ensures m != "" ==> t == m
    ensures m == "" ==> t == " "
  {
    OrElse(m, " ")
  }

  /** A card as rendered. */
  datatype Card = Card(imageSrc: string, alt: string, meta: string, title: string, content: string, author: string)

  function CardOf(x: StoryRow): (c: Card)
    ensures c.imageSrc != "" && c.alt != "" && c.meta != ""
    ensures c.imageSrc == Placeholder <==> TextRepair.Clean(x.imageUrl.GetOr("")) in {"", Placeholder}
    ensures c.alt == DefaultAlt <==> c.title in {"", DefaultAlt}
    ensures TextRepair.Normalized(c.title) && TextRepair.Normalized(c.author)
    ensures c.title == TextRepair.Clean(x.title) && c.content == TextRepair.Clean(x.content)
    ensures c.author == TextRepair.Clean(x.name)
    ensures TextRepair.Clean(x.imageUrl.GetOr("")) != "" ==> c.imageSrc == TextRepair.Clean(x.imageUrl.GetOr(""))
    ensures c.title != "" ==> c.alt == c.title
    ensures var year := TextRepair.Clean(x.year.GetOr(""));
      var location := TextRepair.Clean(x.location.GetOr(""));
      && (year == "" && location == "" ==> c.meta == " ")
      && (year != "" && location == "" ==> c.meta == year)
      && (location != "" ==> c.meta == year + Separator + location)
  {
    var title := TextRepair.Clean(x.title);
    var img := TextRepair.Clean(x.imageUrl.GetOr(""));
    var year := TextRepair.Clean(x.year.GetOr(""));
    var location := TextRepair.Clean(x.location.GetOr(""));
    Card(OrElse(img, Placeholder), OrElse(title, DefaultAlt), MetaLine(Meta(year, location)),
         title, TextRepair.Clean(x.content), TextRepair.Clean(x.name))
  }

  /** The row with every text field replaced by its cleaned text. */
  function Recleaned(x: StoryRow): StoryRow {
    StoryRow(TextRepair.Clean(x.name), TextRepair.Clean(x.title), TextRepair.Clean(x.content),
             Some(TextRepair.Clean(x.imageUrl.GetOr(""))), Some(TextRepair.Clean(x.location.GetOr(""))),
             Some(TextRepair.Clean(x.year.GetOr(""))))
  }

  /** Storing the cleaned fields back does not change the card: a row
      without U+00C2 renders the same before and after cleaning. */
  lemma CardOfRecleaned(x: StoryRow)
    requires TextRepair.Artifact !in x.name && TextRepair.Artifact !in x.title
    requires TextRepair.Artifact !in x.content && TextRepair.Artifact !in x.imageUrl.GetOr("")
    requires TextRepair.Artifact !in x.location.GetOr("") && TextRepair.Artifact !in x.year.GetOr("")
    ensures CardOf(Recleaned(x)) == CardOf(x)
  {
    TextRepair.CleanTextIdempotent(x.name);
    TextRepair.CleanTextIdempotent(x.title);
    TextRepair.CleanTextIdempotent(x.content);
    TextRepair.CleanTextIdempotent(x.imageUrl.GetOr(""));
    TextRepair.CleanTextIdempotent(x.location.GetOr(""));
    TextRepair.CleanTextIdempotent(x.year.GetOr(""));
  }

  /** For cleaned fields, the meta line starts with whitespace exactly when
      the year is missing and the location is present: the dangling
      " | " separator. */
  lemma MetaLeadingSeparator(year: string, location: string)
    requires TextRepair.Normalized(year) && TextRepair.Normalized(location)
    ensures var m := Meta(year, location);
      (|m| > 0 && IsJsSpace(m[0])) <==> year == "" && location != ""
    ensures year == "" && location != "" ==> StartsWith(Meta(year, location), Separator)
  {
    var m := Meta(year, location);
    if year != "" {
      assert m[0] == year[0];
    } else if location != "" {
      assert m[0] == ' ';
    }
  }

  /** A card's meta line never shows a dangling separator at the end. */
  lemma MetaNoTrailingSeparator(year: string, location: string)
    requires TextRepair.Normalized(year) && TextRepair.Normalized(location)
    ensures var m := Meta(year, location); |m| > 0 ==> !IsJsSpace(m[|m| - 1])
  {
    var m := Meta(year, location);
    if location != "" {
      assert m[|m| - 1] == location[|location| - 1];
    }
  }
}
