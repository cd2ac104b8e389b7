/** The catalog's one entity, the book record, and the fixed choice lists
    its genre and reading status are drawn from. */
module Books {

  datatype Option<T> = None | Some(value: T)

  /** The eight genres offered by the add and edit forms. */
  datatype Genre = Fiction | NonFiction | ScienceFiction | Mystery | Fantasy | Biography | History | Other

  /** The four reading states offered by the add and edit forms. */
  datatype Status = Unread | Reading | Completed | OnHold

  /** A rating as the forms' slider produces it: a whole number from 0 to 5. */
  type Rating = r: int | 0 <= r <= 5

  /** One catalog entry. Title and author are checked to be non-empty when a
      book is added; an edit stores whatever the edit form holds. The date
      is kept as the text the date picker's value was rendered to. */
  datatype Book = Book(
    title: string,
    author: string,
    genre: Genre,
    status: Status,
    rating: Rating,
    dateAdded: string,
    notes: string)

  /** The label stored for a genre. Each label reads back as its own
      genre, so the edit form can preselect the stored genre. */
  function GenreLabel(g: Genre): (r: string)
    ensures ParseGenre(r) == Some(g)
  {
    match g
    case Fiction => "Fiction"
    case NonFiction => "Non-Fiction"
    case ScienceFiction => "Science Fiction"
    case Mystery => "Mystery"
    case Fantasy => "Fantasy"
    case Biography => "Biography"
    case History => "History"
    case Other => "Other"
  }

  /** The label stored for a status. Each label reads back as its own
      status, so the edit form can preselect the stored status. */
  function StatusLabel(s: Status): (r: string)
    ensures ParseStatus(r) == Some(s)
  {
    match s
    case Unread => "Unread"
    case Reading => "Reading"
    case Completed => "Completed"
    case OnHold => "On Hold"
  }

  /** The genre a stored label names, if it names one: how the edit form
      finds the stored genre among its choices to preselect it. */
  function ParseGenre(name: string): Option<Genre> {
    if name == "Fiction" then Some(Fiction)
    else if name == "Non-Fiction" then Some(NonFiction)
    else if name == "Science Fiction" then Some(ScienceFiction)
    else if name == "Mystery" then Some(Mystery)
    else if name == "Fantasy" then Some(Fantasy)
    else if name == "Biography" then Some(Biography)
    else if name == "History" then Some(History)
    else if name == "Other" then Some(Other)
    else None
  }

  /** The status a stored label names, if it names one: how the edit form
      finds the stored status among its choices to preselect it. */
  function ParseStatus(name: string): Option<Status> {
    if name == "Unread" then Some(Unread)
    else if name == "Reading" then Some(Reading)
    else if name == "Completed" then Some(Completed)
    else if name == "On Hold" then Some(OnHold)
    else None
  }

  /** A label reads back as a genre only if it is that genre's label, and
      reads back as nothing only if it is no genre's label. */
  lemma ParseGenreSound(name: string)
    ensures ParseGenre(name).Some? ==> GenreLabel(ParseGenre(name).value) == name
    ensures ParseGenre(name).None? ==> forall g: Genre :: GenreLabel(g) != name
  {
  }

  /** A label reads back as a status only if it is that status's label, and
      reads back as nothing only if it is no status's label. */
  lemma ParseStatusSound(name: string)
    ensures ParseStatus(name).Some? ==> StatusLabel(ParseStatus(name).value) == name
    ensures ParseStatus(name).None? ==> forall s: Status :: StatusLabel(s) != name
  {
  }
}
