/**
  Media items: whether an item is resizable and the icon class shown for an item that has no
  rendered preview.
 */
module Media {
  import opened Wrappers

  datatype Status = Uploading | Available | Missing

  /**
    A media item. `srcIcon` is `Some` exactly when the item object has a `src_icon` property,
    which is what makes it a resizable item.
   */
  datatype MediaItem = MediaItem(
    id: string,
    status: Status,
    title: string,
    extension: string,
    src: Option<string>,
    alt: Option<string>,
    srcIcon: Option<string>)

  /** `isMediaItemResizable`: the item has a `src_icon` property. */
  predicate IsMediaItemResizable(item: MediaItem) {
    item.srcIcon.Some?
  }

  const MissingIcon := "fas fa-exclamation-triangle"
  const GenericIcon := "fas fa-file"

  /** The `switch` on the extension: one icon per document family, the generic file icon otherwise. */
  function ExtensionIcon(extension: string): (icon: string)
    ensures icon == "fas fa-file-pdf" <==> extension == "pdf"
    ensures icon == "fas fa-file-word" <==> extension == "doc" || extension == "docx"
    ensures icon == "fas fa-file-excel" <==> extension == "xls" || extension == "xlsx"
    ensures icon == "fas fa-file-csv" <==> extension == "csv"
    ensures icon == "fas fa-file-powerpoint" <==> extension == "ppt" || extension == "pptx"
    ensures icon == GenericIcon <==> extension !in {"pdf", "doc", "docx", "xls", "xlsx", "csv", "ppt", "pptx"}
  {
    match extension
    case "pdf" => "fas fa-file-pdf"
    case "doc" => "fas fa-file-word"
    case "docx" => "fas fa-file-word"
    case "xls" => "fas fa-file-excel"
    case "xlsx" => "fas fa-file-excel"
    case "csv" => "fas fa-file-csv"
    case "ppt" => "fas fa-file-powerpoint"
    case "pptx" => "fas fa-file-powerpoint"
    case _ => GenericIcon
  }

  /**
    `getIconCssClass`: a missing item shows the warning icon whatever its extension; an SVG or a
    resizable item has no icon (its picture is shown instead); any other item shows its
    extension's icon.
   */
  function GetIconCssClass(item: MediaItem): (icon: Option<string>)
    ensures item.status == Missing ==> icon == Some(MissingIcon)
    ensures icon.None? <==> item.status != Missing && (item.extension == "svg" || IsMediaItemResizable(item))
    ensures icon.Some? && item.status != Missing ==> icon.value == ExtensionIcon(item.extension)
  {
    if item.status == Missing then Some(MissingIcon)
    else if item.extension == "svg" then None
    else if IsMediaItemResizable(item) then None
    else Some(ExtensionIcon(item.extension))
  }

  /** Only a missing item gets the warning icon, and the generic icon is for unknown extensions only. */
  lemma IconClassesDistinct(item: MediaItem)
    ensures GetIconCssClass(item) == Some(MissingIcon) <==> item.status == Missing
    ensures GetIconCssClass(item) == Some(GenericIcon) ==>
      item.extension !in {"svg", "pdf", "doc", "docx", "xls", "xlsx", "csv", "ppt", "pptx"}
  {
    if item.status != Missing && GetIconCssClass(item).Some? {
      var e := item.extension;
      assert ExtensionIcon(e) != MissingIcon by {
        match e
        case "pdf" =>
        case "doc" =>
        case "docx" =>
        case "xls" =>
        case "xlsx" =>
        case "csv" =>
        case "ppt" =>
        case "pptx" =>
        case _ =>
      }
    }
  }
}
