/**
 * The six record kinds of the chat store (users, conversations, messages,
 * conversationReads, reactions, typing), the caller's identity and the errors
 * the handlers throw.
 */
module Schema {
  import opened Wrappers

  /** Document ids. The store hands them out from one counter, so they are unique across tables. */
  type UserId = nat
  type ConversationId = nat
  type MessageId = nat
  type ReadId = nat
  type ReactionId = nat
  type TypingId = nat

  datatype User = User(
    clerkId: string,
    name: string,
    email: string,
    imageUrl: Option<string>,
    lastSeenAt: int,
    createdAt: int)

  datatype Kind = Direct | Group

  datatype Conversation = Conversation(
    kind: Kind,
    members: seq<UserId>,
    name: Option<string>,
    createdBy: UserId,
    createdAt: int,
    lastMessageAt: Option<int>,
    lastMessageId: Option<MessageId>)

  /** A message is never removed: deletion only sets `isDeleted`. */
  datatype Message = Message(
    conversationId: ConversationId,
    senderId: UserId,
    content: string,
    isDeleted: bool,
    createdAt: int)

  /** The read receipt of one user in one conversation: a high-water mark. */
  datatype ConversationRead = ConversationRead(
    conversationId: ConversationId,
    userId: UserId,
    lastReadAt: int)

  /** The closed set of reactions: thumbs up, red heart, tears of joy, open mouth, crying face. */
  datatype Emoji = ThumbsUp | Heart | Joy | OpenMouth | Crying

  datatype Reaction = Reaction(
    messageId: MessageId,
    userId: UserId,
    emoji: Emoji,
    createdAt: int)

  datatype Typing = Typing(
    conversationId: ConversationId,
    userId: UserId,
    updatedAt: int)

  /** What the identity provider says about the caller: the subject and the optional claims. */
  datatype Identity = Identity(
    subject: string,
    name: Option<string>,
    email: Option<string>,
    pictureUrl: Option<string>)

  /** One constructor per distinct `throw new Error(...)` of the handlers. */
  datatype Error =
    | NotAuthenticated
    | CurrentUserNotFound
    | SelfConversation
    | OtherUserNotFound
    | EmptyGroupName
    | TooFewMembers
    | MembersNotFound
    | ConversationNotFound
    | NotAMember
    | EmptyContent
    | MessageNotFound
    | NotOwnMessage
    | InvalidReaction

  /** The text each error carries. */
  function ErrorText(e: Error): string {
    match e
    case NotAuthenticated => "Not authenticated"
    case CurrentUserNotFound => "Current user not found"
    case SelfConversation => "Cannot start a conversation with yourself"
    case OtherUserNotFound => "The specified user does not exist"
    case EmptyGroupName => "Group name cannot be empty"
    case TooFewMembers => "A group must have at least 1 other member"
    case MembersNotFound => "Some users could not be found"
    case ConversationNotFound => "Conversation not found"
    case NotAMember => "You are not a member of this conversation"
    case EmptyContent => "Message content cannot be empty"
    case MessageNotFound => "Message not found"
    case NotOwnMessage => "You can only delete your own messages"
    case InvalidReaction => "Argument validation failed: reaction is not an allowed literal"
  }

  /** The literal stored for each reaction. */
  function EmojiText(e: Emoji): string {
    match e
    case ThumbsUp => "\U{1F44D}"
    case Heart => "\U{2764}\U{FE0F}"
    case Joy => "\U{1F602}"
    case OpenMouth => "\U{1F62E}"
    case Crying => "\U{1F622}"
  }

  /** The argument validator of `updateReaction`: only the five literals are accepted. */
  function ParseEmoji(s: string): (r: Option<Emoji>)
    ensures r.Some? ==> EmojiText(r.value) == s
  {
    if s == EmojiText(ThumbsUp) then Some(ThumbsUp)
    else if s == EmojiText(Heart) then Some(Heart)
    else if s == EmojiText(Joy) then Some(Joy)
    else if s == EmojiText(OpenMouth) then Some(OpenMouth)
    else if s == EmojiText(Crying) then Some(Crying)
    else None
  }

  /** Every reaction's literal is accepted and read back as that reaction, so the five literals are distinct. */
  lemma ParseEmojiText(e: Emoji)
    ensures ParseEmoji(EmojiText(e)) == Some(e)
  {
    match e
    case ThumbsUp =>
    case Heart =>
      assert EmojiText(Heart)[0] != EmojiText(ThumbsUp)[0];
    case Joy =>
      assert EmojiText(Joy)[0] != EmojiText(ThumbsUp)[0];
      assert |EmojiText(Joy)| != |EmojiText(Heart)|;
    case OpenMouth =>
      assert EmojiText(OpenMouth)[0] != EmojiText(ThumbsUp)[0];
      assert |EmojiText(OpenMouth)| != |EmojiText(Heart)|;
      assert EmojiText(OpenMouth)[0] != EmojiText(Joy)[0];
    case Crying =>
      assert EmojiText(Crying)[0] != EmojiText(ThumbsUp)[0];
      assert |EmojiText(Crying)| != |EmojiText(Heart)|;
      assert EmojiText(Crying)[0] != EmojiText(Joy)[0];
      assert EmojiText(Crying)[0] != EmojiText(OpenMouth)[0];
  }
}
