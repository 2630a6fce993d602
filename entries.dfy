/**
 * The records lineterm.py passes around as short lists and tuples: the
 * per-row meta tuple, the prompt delimiters, and the scroll-back entry
 * `[entry_index, offset, dir, row_params, line, markup]`.
 */
module Entries {

  /** The meta tuple `(current_dir, continuation)` kept for a screen row at a shell prompt;
      rows without one hold `None`. `continuation` counts the rows a command has wrapped onto. */
  datatype Meta = Meta(dir: string, continuation: int)

  /** The first two items of `pdelim`: the prompt prefix and the text that ends a prompt.
      An empty `pdelim` list is `None` where it is used. */
  datatype Delims = Delims(prefix: string, suffix: string)

  /** `row_params` as a caller passes it: `[type, opts]`. Every option value the terminal
      stores comes from a directive's `name=value` text, so options are strings and an
      option is set when its value is not empty. */
  datatype RowParams = RowParams(kind: string, opts: map<string, string>)

  const PlainRow := RowParams("", map[])

  predicate OptSet(opts: map<string, string>, key: string) {
    key in opts && opts[key] != ""
  }

  function OptOr(opts: map<string, string>, key: string): string {
    if key in opts then opts[key] else ""
  }

  /** The pagelet id `"%d-%d" % (buf_note, scroll_count)`, kept as the pair it is formatted from. */
  datatype PageletId = PageletId(note: int, count: int)

  /** The markup column: `None`, literal HTML, or the markup `command_markup` builds for a
      prompt line, recorded by the arguments it is built from. */
  datatype Markup =
    | NoMarkup
    | Html(text: string)
    | CommandMarkup(entryIndex: int, dir: string, preOffset: int, offset: int, line: string)

  /** One scroll-back entry. The `add_class` and `pagelet_id` options, which every stored
      entry carries, are kept as fields of their own beside the other options. */
  datatype Entry = Entry(
    index: int,
    offset: int,
    dir: string,
    kind: string,
    opts: map<string, string>,
    addClass: string,
    pageletId: PageletId,
    line: string,
    markup: Markup)
}
